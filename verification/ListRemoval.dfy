/**
  What a removal leaves behind: by the time it returns, the node that it marked is out
  of the list, unlinked by itself or by whoever helped.
 */
module ListRemoval {
  import opened ListHistory
  import opened ListInvariant
  import opened ListMachine
  import opened ListReclamation
  import opened ListShape

  /** While the node n that this removal marked is still linked, the removal has not
      gone past it, and is not going to end without meeting it. */
  ghost predicate Ahead(h: Heap, th: Thread, n: Ptr) {
    match th.pc
    case CasUnlink => th.cur == n
    case ReadStart | SetHp | Check1 | ReadNext | Help => true
    case ReadKey | Check2 =>
      th.cur != n && th.cur in h && (th.next == NULL ==> h[th.cur].key >= th.op.key)
    case Swap1 | Swap2 => th.next != NULL
    case Retire | Scan | Sweep => th.after == Resume && th.next != NULL
    case _ => false
  }

  /** The thread is in a removal that has marked n. */
  ghost predicate Pursues(s: State, t: nat, n: Ptr) {
    && t < |s.threads|
    && var th := s.threads[t];
       && th.pc != Idle && th.op.kind == Remove && th.result == Done
       && Published(s.heap, Linked(s.heap), n) && s.heap[n].mark && s.heap[n].key == th.op.key
       && (n in Linked(s.heap) ==> Ahead(s.heap, th, n))
  }

  /** n is linked, and nothing follows cur: cur is not below n. */
  lemma LastOfAll(h: Heap, l: set<Ptr>, p: Ptr, n: Ptr)
    requires Shape(h, l) && p in l && n in l && n != HEAD && h[p].next == NULL
    ensures p != HEAD && h[p].key >= h[n].key
  {
    assert Succ(h, l, p);
    assert !Before(h, p, n);
  }

  /** Between two neighbours there is nothing. */
  lemma NothingBetween(h: Heap, l: set<Ptr>, p: Ptr, n: Ptr)
    requires Shape(h, l) && p in l && n in l && n != HEAD && Below(h, p, h[n].key) && h[p].next != n
    ensures h[p].next in l && h[p].next != HEAD && h[h[p].next].key < h[n].key
  {
    assert Succ(h, l, p);
    assert Before(h, p, n);
  }

  // ------------------------------------------------------------------- one step

  lemma StepKeepsMarked(cfg: Config, s: State, e: Event, n: Ptr)
    requires Inv(cfg, s) && Enabled(cfg, s, e) && Published(s.heap, Linked(s.heap), n) && s.heap[n].mark
    ensures var h' := Step(cfg, s, e).heap;
            && Published(h', Linked(h'), n) && h'[n] == s.heap[n]
            && (n !in Linked(s.heap) ==> n !in Linked(h'))
            && forall m :: m in s.heap ==> m in h' && h'[m].key == s.heap[m].key
  {
    hide Linked, HeapOk, Inv, Enabled, Step;
    StepGrows(cfg, s, e);
    if n !in Linked(s.heap) {
      StaysOut(cfg, s, e, n);
    }
  }

  lemma PursuesOther(cfg: Config, s: State, e: Event, t: nat, n: Ptr)
    requires Inv(cfg, s) && Enabled(cfg, s, e) && Pursues(s, t, n) && e.t != t
    ensures Pursues(Step(cfg, s, e), t, n)
  {
    hide Linked, HeapOk, Inv, Enabled, Step, Published;
    StepKeepsMarked(cfg, s, e, n);
    CustodyFrame(cfg, s, e);
  }

  /** A step that does not end the removal keeps it on its way. */
  lemma PursuesOwn(cfg: Config, s: State, e: Event, n: Ptr)
    requires Inv(cfg, s) && Enabled(cfg, s, e) && Pursues(s, e.t, n) && s.threads[e.t].pc != Return
    ensures Pursues(Step(cfg, s, e), e.t, n)
  {
    hide Linked, HeapOk, Inv, Step, Published, Ahead;
    var s' := Step(cfg, s, e);
    StepKeepsMarked(cfg, s, e, n);
    SettledKeeps(cfg, s, e);
    StepThreads(cfg, s, e);
    NotIdleYet(cfg, s, e);
    if n in Linked(s'.heap) {
      AheadOwn(cfg, s, e, n);
    }
  }

  lemma NotIdleYet(cfg: Config, s: State, e: Event)
    requires Enabled(cfg, s, e) && s.threads[e.t].pc !in {Idle, Return}
    ensures Step(cfg, s, e).threads[e.t].pc != Idle
  {
    hide Linked, Abs, Load, CasHolds, Legal;
  }

  lemma AheadOwn(cfg: Config, s: State, e: Event, n: Ptr)
    requires Inv(cfg, s) && Enabled(cfg, s, e) && Pursues(s, e.t, n) && s.threads[e.t].pc != Return
    requires n in Linked(s.heap) && n in Linked(Step(cfg, s, e).heap)
    ensures Ahead(Step(cfg, s, e).heap, Step(cfg, s, e).threads[e.t], n)
  {
    hide Linked, HeapOk, Inv, StepGo, Published, Ahead;
    PursuingPlaces(s, e.t, n);
    match e
    case Call(_, _) => assert false;
    case Drop(_, _) => AheadRetire(cfg, s, e, n);
    case Go(t) =>
      match s.threads[t].pc
      case ReadStart => AheadStart(cfg, s, t, n);
      case ReadNext => AheadNext(cfg, s, t, n);
      case Check2 => AheadCheck2(cfg, s, t, n);
      case Help | CasUnlink => AheadCas(cfg, s, t, n);
      case Retire | Scan | Sweep => AheadRetire(cfg, s, e, n);
      case _ => AheadMove(cfg, s, t, n);
  }

  lemma PursuingPlaces(s: State, t: nat, n: Ptr)
    requires Pursues(s, t, n) && n in Linked(s.heap)
    ensures s.threads[t].pc in {CasUnlink, ReadStart, SetHp, Check1, ReadNext, Help, ReadKey, Check2, Swap1, Swap2,
                                Retire, Scan, Sweep}
  {
    hide Linked;
  }

  lemma AheadStart(cfg: Config, s: State, t: nat, n: Ptr)
    requires Inv(cfg, s) && Pursues(s, t, n) && n in Linked(s.heap) && s.threads[t].pc == ReadStart
    ensures Ahead(StepGo(cfg, s, t).heap, StepGo(cfg, s, t).threads[t], n)
  {
    var th, h, l := s.threads[t], s.heap, Linked(s.heap);
    if th.op.start == NULL && h[HEAD].next == NULL {
      LastOfAll(h, l, HEAD, n);
    }
    assert ThreadOk(cfg, h, l, th);
  }

  lemma AheadNext(cfg: Config, s: State, t: nat, n: Ptr)
    requires Inv(cfg, s) && Pursues(s, t, n) && n in Linked(s.heap) && s.threads[t].pc == ReadNext
    ensures Ahead(StepGo(cfg, s, t).heap, StepGo(cfg, s, t).threads[t], n)
  {
    var th, h, l := s.threads[t], s.heap, Linked(s.heap);
    assert ThreadOk(cfg, h, l, th);
    if !h[th.cur].mark && h[th.cur].next == NULL {
      LastOfAll(h, l, th.cur, n);
    }
  }

  /** Found or beyond the key, with *prev still before cur: n would lie between them. */
  lemma AheadCheck2(cfg: Config, s: State, t: nat, n: Ptr)
    requires Inv(cfg, s) && Pursues(s, t, n) && n in Linked(s.heap) && s.threads[t].pc == Check2
    ensures Ahead(StepGo(cfg, s, t).heap, StepGo(cfg, s, t).threads[t], n)
  {
    hide Linked, HeapOk;
    var th, h, l := s.threads[t], s.heap, Linked(s.heap);
    assert ThreadOk(cfg, h, l, th);
    if CasHolds(s, th) && th.curKey >= th.op.key {
      CasCell(cfg, s, t);
      NothingBetween(h, l, th.prev.cell, n) by { ShapeOfInv(cfg, s); }
      assert false;
    }
  }

  /** Unlinking the last node leaves nothing beyond *prev. */
  lemma AheadCas(cfg: Config, s: State, t: nat, n: Ptr)
    requires Inv(cfg, s) && Pursues(s, t, n) && n in Linked(s.heap) && s.threads[t].pc in {Help, CasUnlink}
    requires n in Linked(StepGo(cfg, s, t).heap)
    ensures Ahead(StepGo(cfg, s, t).heap, StepGo(cfg, s, t).threads[t], n)
  {
    hide Linked, HeapOk, Inv, PrevOk;
    var th, s' := s.threads[t], StepGo(cfg, s, t);
    if CasHolds(s, th) {
      UnlinkYes(cfg, s, t);
      CasPrev(cfg, s, t);
      CasIs(cfg, s, t);
      if th.next == NULL {
        ShapeOfInv(cfg, s');
        PrevStays(cfg, s, t);
        LastOfAll(s'.heap, Linked(s'.heap), th.prev.cell, n);
        assert false;
      }
    }
  }

  lemma PrevStays(cfg: Config, s: State, t: nat)
    requires Inv(cfg, s) && t < |s.threads| && s.threads[t].pc in {Help, CasUnlink} && CasHolds(s, s.threads[t])
    ensures var th, h' := s.threads[t], StepGo(cfg, s, t).heap;
            && th.prev.At? && th.prev.cell in Linked(h') && th.prev.cell in h'
            && h'[th.prev.cell].next == th.next && Below(h', th.prev.cell, th.op.key)
  {
    hide Linked, HeapOk;
    var th := s.threads[t];
    UnlinkYes(cfg, s, t);
    CasPrev(cfg, s, t);
    CasIs(cfg, s, t);
  }

  lemma AheadRetire(cfg: Config, s: State, e: Event, n: Ptr)
    requires Enabled(cfg, s, e) && !e.Call? && s.threads[e.t].pc in {Retire, Scan, Sweep}
    requires Pursues(s, e.t, n) && n in Linked(s.heap)
    ensures Ahead(Step(cfg, s, e).heap, Step(cfg, s, e).threads[e.t], n)
  {
    hide Linked, Step;
    RetireMoves(cfg, s, e);
  }

  lemma AheadMove(cfg: Config, s: State, t: nat, n: Ptr)
    requires Pursues(s, t, n) && n in Linked(s.heap) && s.threads[t].pc in {SetHp, Check1, ReadKey, Swap1, Swap2}
    ensures Ahead(StepGo(cfg, s, t).heap, StepGo(cfg, s, t).threads[t], n)
  {
    hide Linked, Load;
  }

  // ------------------------------------------------------------------- whole calls

  /** At step i thread t's removal marks n. */
  ghost predicate Marks(r: Run, i: nat, t: nat, n: Ptr) {
    && i < |r.events| < |r.states| && r.events[i] == Go(t) && t < |r.states[i].threads|
    && r.states[i].threads[t].pc == CasMark && r.states[i].threads[t].cur == n
    && n in r.states[i].heap && n in r.states[i + 1].heap
    && !r.states[i].heap[n].mark && r.states[i + 1].heap[n].mark
  }

  /** Between steps i and j thread t does not return to its caller. */
  ghost predicate SameCall(r: Run, i: nat, j: nat, t: nat)
    requires j <= |r.events| < |r.states|
  {
    forall m {:trigger r.events[m]} :: i < m < j && r.events[m].t == t && t < |r.states[m].threads| ==>
      r.states[m].threads[t].pc != Return
  }

  lemma MarkPursues(cfg: Config, r: Run, i: nat, t: nat, n: Ptr)
    requires ValidRun(cfg, r) && Marks(r, i, t, n)
    ensures Pursues(r.states[i + 1], t, n)
  {
    hide Linked, HeapOk, Inv;
    assert Follows(cfg, r, i);
    InvRun(cfg, r, i);
    var s := r.states[i];
    MarkIs(cfg, s, t);
    assert MarkHolds(s, s.threads[t]);
    MarkThread(cfg, s, t);
    MarkKnows(cfg, s.heap, Linked(s.heap), s.threads[t]);
    StepGrows(cfg, s, r.events[i]);
    assert Published(r.states[i + 1].heap, Linked(r.states[i + 1].heap), n);
  }

  lemma MarkThread(cfg: Config, s: State, t: nat)
    requires Inv(cfg, s) && t < |s.threads|
    ensures ThreadOk(cfg, s.heap, Linked(s.heap), s.threads[t])
    ensures s.threads[t].pc == CasMark ==> s.threads[t].op.kind == Remove
  {
    assert ThreadOk(cfg, s.heap, Linked(s.heap), s.threads[t]);
  }

  lemma {:induction false} PursuesRun(cfg: Config, r: Run, i: nat, j: nat, t: nat, n: Ptr)
    requires ValidRun(cfg, r) && Marks(r, i, t, n) && i < j <= |r.events| && SameCall(r, i, j, t)
    ensures Pursues(r.states[j], t, n)
    decreases j
  {
    hide Inv, Pursues, Enabled, Step;
    if j == i + 1 {
      MarkPursues(cfg, r, i, t, n);
    } else {
      PursuesRun(cfg, r, i, j - 1, t, n);
      InvRun(cfg, r, j - 1);
      assert Follows(cfg, r, j - 1);
      if r.events[j - 1].t == t {
        assert t < |r.states[j - 1].threads| by { PursuingThread(r.states[j - 1], t, n); }
        PursuesOwn(cfg, r.states[j - 1], r.events[j - 1], n);
      } else {
        PursuesOther(cfg, r.states[j - 1], r.events[j - 1], t, n);
      }
    }
  }

  lemma PursuingThread(s: State, t: nat, n: Ptr)
    requires Pursues(s, t, n)
    ensures t < |s.threads|
  {
  }

  /** A removal that marked a node returns only when that node is out of the list; it is
      then in exactly one thread's hands or has been freed. */
  lemma RemovedIsUnlinked(cfg: Config, r: Run, i: nat, j: nat, t: nat, n: Ptr)
    requires ValidRun(cfg, r) && Marks(r, i, t, n) && i < j <= |r.events| && SameCall(r, i, j, t)
    requires t < |r.states[j].threads| && r.states[j].threads[t].pc == Return
    ensures n !in Linked(r.states[j].heap)
    ensures n in r.states[j].freed || Held(r.states[j], n)
  {
    hide Linked;
    PursuesRun(cfg, r, i, j, t, n);
    CustodyRun(cfg, r, j);
    assert Gone(r.states[j].heap, Linked(r.states[j].heap), n);
  }
}
