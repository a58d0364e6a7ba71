/**
  Memory reclamation in the lock-free list: who holds an unlinked node, that it
  is handed to retireNode once, and that no thread touches a freed node.
 */
module ListReclamation {
  import opened ListMachine
  import opened ListShape
  import opened ListInvariant

  // ---------------------------------------------------------------- unlinked nodes

  /** Was in the list, and no longer is. */
  ghost predicate Gone(h: Heap, l: set<Ptr>, n: Ptr) {
    n in h && n != HEAD && h[n].mark && n !in l
  }

  /** What a thread has unlinked and not freed: its retired list, and the node it
      is about to retire. */
  function HeldBy(th: Thread): set<Ptr> {
    th.retired + if th.pc == Retire then {th.cur} else {}
  }

  ghost predicate HoldsOk(s: State, l: set<Ptr>, t: nat)
    requires t < |s.threads|
  {
    var th := s.threads[t];
    && (forall n :: n in HeldBy(th) ==> Gone(s.heap, l, n) && n !in s.freed)
    && (th.pc == Retire ==> th.cur !in th.retired)
    && (th.pc == Sweep ==> th.todo <= th.retired)
    && (Owns(th) ==> th.newNode !in s.freed)
  }

  ghost predicate Apart(s: State, t: nat, u: nat)
    requires t < |s.threads| && u < |s.threads|
  {
    HeldBy(s.threads[t]) !! HeldBy(s.threads[u])
  }

  ghost predicate Held(s: State, n: Ptr) {
    exists t :: 0 <= t < |s.threads| && n in HeldBy(s.threads[t])
  }

  /** Every unlinked node is held by exactly one thread or has been freed, and only
      unlinked or never published nodes are freed. */
  ghost predicate Custody(s: State) {
    var l := Linked(s.heap);
    && (forall t {:trigger HoldsOk(s, l, t)} :: 0 <= t < |s.threads| ==> HoldsOk(s, l, t))
    && (forall t, u {:trigger Apart(s, t, u)} :: 0 <= t < |s.threads| && 0 <= u < |s.threads| && t != u ==>
        Apart(s, t, u))
    && (forall n :: n in s.freed ==> n in s.heap && n !in l)
    && (forall n {:trigger Held(s, n)} :: Gone(s.heap, l, n) ==> n in s.freed || Held(s, n))
  }

  // ------------------------------------------------------------ hazard protection

  /** The scan of thread th will not free n, given that the slot numbered k holds n. */
  ghost predicate Spares(th: Thread, n: Ptr, k: nat) {
    n in th.retired ==>
      && (th.pc == Scan ==> th.slot <= k || n in th.active)
      && (th.pc == Sweep ==> n in th.active || n !in th.todo)
  }

  /** n is not freed, and no scan under way will free it while slot k holds it. */
  ghost predicate Guarded(s: State, k: nat, n: Ptr) {
    && n !in s.freed
    && forall u {:trigger s.threads[u]} :: 0 <= u < |s.threads| ==> Spares(s.threads[u], n, k)
  }

  /** The thread will still use the cell that holds *prev. */
  predicate UsesPrev(th: Thread) {
    || th.pc in {SetHp, Check1, ReadNext, ReadKey, Check2, Help, LinkNew, CasInsert, CasMark, CasUnlink}
    || (th.pc in {Retire, Scan, Sweep} && th.after == Resume)
  }

  /** The thread has validated cur and will still read it. */
  predicate UsesCur(th: Thread) {
    th.pc in {ReadNext, ReadKey, Check2, ReadVal, CasMark}
  }

  ghost predicate Protected(cfg: Config, s: State, t: nat)
    requires t < |s.threads|
  {
    var th := s.threads[t];
    && (UsesPrev(th) && th.prev.At? && th.prev.cell != HEAD ==>
          th.hp1 == th.prev.cell && Guarded(s, 2 * t + 1, th.prev.cell))
    && (UsesCur(th) ==> th.hp0 == th.cur && Guarded(s, 2 * t, th.cur))
    && (th.pc == Check1 ==> th.hp0 == th.cur)
    && (th.pc == Swap1 ==> th.hp0 == th.cur && Guarded(s, 2 * t, th.cur))
    && (th.pc == Swap2 ==> !cfg.atomicSwap && th.prev.At? && th.temp == th.prev.cell && Guarded(s, 2 * t + 1, th.temp))
  }

  ghost predicate AllProtected(cfg: Config, s: State) {
    forall t {:trigger Protected(cfg, s, t)} :: 0 <= t < |s.threads| ==> Protected(cfg, s, t)
  }

  /** The exchange is one step, or there is nobody to interrupt it. */
  predicate SafeConfig(cfg: Config) {
    cfg.atomicSwap || cfg.threads <= 1
  }

  /** The cells that a step reads, writes or deletes. */
  function Touches(s: State, e: Event): set<Ptr>
    requires e.t < |s.threads|
  {
    var th := s.threads[e.t];
    match e
    case Call(_, _) => {}
    case Drop(_, n) => if n in th.active then {} else {n}
    case Go(_) =>
      match th.pc
      case ReadStart => if th.op.start == NULL then {HEAD} else {}
      case Check1 | Check2 | Help | CasInsert | CasUnlink => if th.prev.At? then {th.prev.cell} else {}
      case ReadNext | ReadKey | ReadVal | CasMark => {th.cur}
      case LinkNew | DelNew => {th.newNode}
      case _ => {}
  }

  // --------------------------------------------------------------- custody is kept

  lemma EnabledThread(cfg: Config, s: State, e: Event)
    requires Enabled(cfg, s, e)
    ensures e.t < |s.threads|
  {
  }

  /** What one step does to the book-keeping of the thread that takes it. */
  lemma CustodyFrame(cfg: Config, s: State, e: Event)
    requires Enabled(cfg, s, e)
    ensures var s' := Step(cfg, s, e);
            && |s'.threads| == |s.threads|
            && forall u {:trigger s'.threads[u]} :: 0 <= u < |s.threads| && u != e.t ==> s'.threads[u] == s.threads[u]
  {
  }

  /** A step that unlinks, retires and frees nothing. */
  lemma CustodyQuiet(cfg: Config, s: State, e: Event)
    requires Inv(cfg, s) && Custody(s) && Enabled(cfg, s, e)
    requires var s' := Step(cfg, s, e);
             && s'.freed == s.freed && s.heap.Keys <= s'.heap.Keys
             && (forall n :: n in s.freed ==> n !in Linked(s'.heap))
             && (forall n {:trigger Gone(s'.heap, Linked(s'.heap), n)} :: Gone(s'.heap, Linked(s'.heap), n) <==>
                 Gone(s.heap, Linked(s.heap), n))
             && HeldBy(s'.threads[e.t]) == HeldBy(s.threads[e.t])
             && HoldsOk(s', Linked(s'.heap), e.t)
    ensures Custody(Step(cfg, s, e))
  {
    var s', l, l' := Step(cfg, s, e), Linked(s.heap), Linked(Step(cfg, s, e).heap);
    CustodyFrame(cfg, s, e);
    forall t | 0 <= t < |s'.threads|
      ensures HoldsOk(s', l', t)
    {
      assert HoldsOk(s, l, t);
    }
    forall t, u | 0 <= t < |s'.threads| && 0 <= u < |s'.threads| && t != u
      ensures Apart(s', t, u)
    {
      assert Apart(s, t, u);
    }
    forall n | Gone(s'.heap, l', n)
      ensures n in s'.freed || Held(s', n)
    {
      if n !in s.freed {
        assert Held(s, n);
        var t :| 0 <= t < |s.threads| && n in HeldBy(s.threads[t]);
        assert n in HeldBy(s'.threads[t]);
      }
    }
  }

  /** A successful unlinking hands the node to the thread that unlinked it. */
  lemma CustodyUnlink(cfg: Config, s: State, t: nat)
    requires Inv(cfg, s) && Custody(s) && t < |s.threads|
    requires s.threads[t].pc in {Help, CasUnlink} && CasHolds(s, s.threads[t])
    ensures Custody(StepGo(cfg, s, t))
  {
    hide Linked, Abs, HeapOk, Grows, Fits, StepGo, PrevOk, ThreadOk, CasHolds;
    var th, s', l := s.threads[t], StepGo(cfg, s, t), Linked(s.heap);
    UnlinkYes(cfg, s, t);
    CasPrev(cfg, s, t);
    CasIs(cfg, s, t);
    var l' := l - {th.cur};
    assert HoldsOk(s, l, t);
    forall n
      ensures Gone(s'.heap, l', n) <==> Gone(s.heap, l, n) || n == th.cur
    {
    }
    forall u | 0 <= u < |s'.threads|
      ensures HoldsOk(s', l', u)
    {
      assert HoldsOk(s, l, u);
    }
    forall u, v | 0 <= u < |s'.threads| && 0 <= v < |s'.threads| && u != v
      ensures Apart(s', u, v)
    {
      assert Apart(s, u, v) && HoldsOk(s, l, u) && HoldsOk(s, l, v);
    }
    GoneHeld(s, s', t, {th.cur});
  }

  /** Custody of gone nodes carries over when the moving thread keeps its own. */
  lemma GoneHeld(s: State, s': State, t: nat, more: set<Ptr>)
    requires Custody(s) && t < |s.threads| == |s'.threads|
    requires forall u {:trigger s'.threads[u]} :: 0 <= u < |s.threads| && u != t ==> s'.threads[u] == s.threads[u]
    requires s.freed <= s'.freed && HeldBy(s.threads[t]) <= HeldBy(s'.threads[t]) + s'.freed
    requires more <= HeldBy(s'.threads[t]) + s'.freed
    requires forall n :: Gone(s'.heap, Linked(s'.heap), n) ==> Gone(s.heap, Linked(s.heap), n) || n in more
    ensures forall n {:trigger Held(s', n)} :: Gone(s'.heap, Linked(s'.heap), n) ==> n in s'.freed || Held(s', n)
  {
    forall n | Gone(s'.heap, Linked(s'.heap), n) && n !in s'.freed
      ensures Held(s', n)
    {
      if n in HeldBy(s'.threads[t]) {
      } else {
        assert Held(s, n);
        var u :| 0 <= u < |s.threads| && n in HeldBy(s.threads[u]);
        assert n in HeldBy(s'.threads[u]);
      }
    }
  }

  /** Freeing a retired node. */
  lemma CustodyDrop(cfg: Config, s: State, t: nat, n: Ptr)
    requires Inv(cfg, s) && Custody(s) && Enabled(cfg, s, Drop(t, n))
    ensures Custody(StepDrop(s, t, n))
    ensures n !in s.freed
  {
    var s', l := StepDrop(s, t, n), Linked(s.heap);
    assert HoldsOk(s, l, t);
    forall u | 0 <= u < |s'.threads|
      ensures HoldsOk(s', l, u)
    {
      assert HoldsOk(s, l, u) && (u != t ==> Apart(s, t, u));
      assert ThreadOk(cfg, s.heap, l, s.threads[u]);
    }
    forall u, v | 0 <= u < |s'.threads| && 0 <= v < |s'.threads| && u != v
      ensures Apart(s', u, v)
    {
      assert Apart(s, u, v);
    }
    GoneHeld(s, s', t, {});
  }

  /** Deleting a node that was never published. */
  lemma CustodyDelNew(cfg: Config, s: State, t: nat)
    requires Inv(cfg, s) && Custody(s) && t < |s.threads| && s.threads[t].pc == DelNew
    ensures Custody(StepGo(cfg, s, t))
    ensures s.threads[t].newNode !in s.freed
  {
    var s', l, n := StepGo(cfg, s, t), Linked(s.heap), s.threads[t].newNode;
    assert HoldsOk(s, l, t);
    assert Private(s.heap, l, n) by { assert ThreadOk(cfg, s.heap, l, s.threads[t]); }
    forall u | 0 <= u < |s'.threads|
      ensures HoldsOk(s', l, u)
    {
      assert HoldsOk(s, l, u);
    }
    forall u, v | 0 <= u < |s'.threads| && 0 <= v < |s'.threads| && u != v
      ensures Apart(s', u, v)
    {
      assert Apart(s, u, v);
    }
    GoneHeld(s, s', t, {});
  }

  /** Same nodes in hand, and nothing newly owned. */
  ghost predicate SameHands(th: Thread, th': Thread) {
    && HeldBy(th') == HeldBy(th) && th'.pc != Retire
    && (th'.pc == Sweep ==> th'.todo == th'.retired)
    && (Owns(th') ==> Owns(th) && th'.newNode == th.newNode)
  }

  lemma RetireHands(cfg: Config, s: State, t: nat)
    requires t < |s.threads| && s.threads[t].pc == Retire
    ensures SameHands(s.threads[t], StepRetire(cfg, s, t).threads[t])
  {
    hide AfterRetire, Linked;
    var th := s.threads[t];
    var th' := th.(retired := th.retired + {th.cur});
    AfterRetireLeaves(th');
    assert HeldBy(th) == th'.retired;
  }

  lemma ScanHands(s: State, t: nat)
    requires t < |s.threads| && s.threads[t].pc == Scan
    ensures SameHands(s.threads[t], StepScan(s, t).threads[t])
  {
  }

  lemma SweepHands(s: State, t: nat)
    requires t < |s.threads| && s.threads[t].pc == Sweep
    ensures SameHands(s.threads[t], AfterRetire(s.threads[t]))
  {
    hide AfterRetire;
    AfterRetireLeaves(s.threads[t]);
  }

  /** retireNode moves its node from one of the thread's hands to the other. */
  lemma RetireKeepsHeld(cfg: Config, s: State, t: nat)
    requires t < |s.threads| && s.threads[t].pc in {Retire, Scan, Sweep}
    ensures var th, s' := s.threads[t], StepGo(cfg, s, t);
            && s'.heap == s.heap && s'.freed == s.freed && SameHands(th, s'.threads[t])
  {
    hide AfterRetire, Linked, Local1, StepCas, StepMark, SameHands;
    match s.threads[t].pc
    case Retire => RetireHands(cfg, s, t);
    case Scan => ScanHands(s, t);
    case Sweep => SweepHands(s, t);
  }

  lemma AfterRetireLeaves(th: Thread)
    ensures var th' := AfterRetire(th);
            && th'.retired == th.retired && th'.pc !in {Retire, Scan, Sweep, Idle}
            && th'.newNode == th.newNode && th'.op == th.op
  {
  }

  lemma CustodyRetire(cfg: Config, s: State, e: Event)
    requires Inv(cfg, s) && Custody(s) && Enabled(cfg, s, e)
    requires e.Go? && s.threads[e.t].pc in {Retire, Scan, Sweep}
    ensures Custody(Step(cfg, s, e))
  {
    assert HoldsOk(s, Linked(s.heap), e.t);
    RetireKeepsHeld(cfg, s, e.t);
    CustodyQuiet(cfg, s, e);
  }

  lemma CustodyLocal(cfg: Config, s: State, e: Event)
    requires Inv(cfg, s) && Custody(s) && Enabled(cfg, s, e)
    requires e.Go? && !Writes(s.threads[e.t].pc) && s.threads[e.t].pc !in {Retire, Scan, Sweep, DelNew}
    ensures Custody(Step(cfg, s, e))
  {
    assert HoldsOk(s, Linked(s.heap), e.t);
    QuietFrame(cfg, s, e);
    LocalHolds(cfg, s, s.threads[e.t]);
    CustodyQuiet(cfg, s, e);
  }

  lemma LocalHolds(cfg: Config, s: State, th: Thread)
    requires !Writes(th.pc) && th.pc !in {Idle, Retire, Scan, Sweep, DelNew}
    ensures var th' := Local1(cfg, s, th);
            th'.retired == th.retired && th'.pc !in {Retire, Scan, Sweep}
            && (Owns(th') ==> Owns(th) && th'.newNode == th.newNode)
  {
    hide Load, CasHolds;
  }

  lemma CustodyCall(cfg: Config, s: State, t: nat, op: Op)
    requires Inv(cfg, s) && Custody(s) && Enabled(cfg, s, Call(t, op))
    ensures Custody(StepCall(s, t, op))
  {
    var l := Linked(s.heap);
    assert HoldsOk(s, l, t);
    if op.kind == Insert {
      WritePrivate(s.heap, l, s.alloc, Node(op.key, op.value, NULL, false));
    }
    CustodyQuiet(cfg, s, Call(t, op));
  }

  lemma CustodyLink(cfg: Config, s: State, t: nat)
    requires Inv(cfg, s) && Custody(s) && t < |s.threads| && s.threads[t].pc == LinkNew
    ensures Custody(StepGo(cfg, s, t))
  {
    var th, l := s.threads[t], Linked(s.heap);
    assert HoldsOk(s, l, t);
    assert ThreadOk(cfg, s.heap, l, th);
    WritePrivate(s.heap, l, th.newNode, Get(s.heap, th.newNode).(next := th.cur, mark := false));
    CustodyQuiet(cfg, s, Go(t));
  }

  lemma CustodyMark(cfg: Config, s: State, t: nat)
    requires Inv(cfg, s) && Custody(s) && t < |s.threads| && s.threads[t].pc == CasMark
    ensures Custody(StepGo(cfg, s, t))
  {
    hide Linked, Abs, HeapOk, Grows, Fits;
    var th, l := s.threads[t], Linked(s.heap);
    assert HoldsOk(s, l, t);
    assert Published(s.heap, l, th.cur) by { assert ThreadOk(cfg, s.heap, l, th); }
    if MarkHolds(s, th) {
      MarkNodeAbs(s.heap, l, th.cur);
    }
    CustodyQuiet(cfg, s, Go(t));
  }

  lemma CustodyInsert(cfg: Config, s: State, t: nat)
    requires Inv(cfg, s) && Custody(s) && t < |s.threads| && s.threads[t].pc == CasInsert && CasHolds(s, s.threads[t])
    ensures Custody(StepGo(cfg, s, t))
  {
    hide Linked, Abs, HeapOk, Grows, Fits;
    var th, l := s.threads[t], Linked(s.heap);
    assert HoldsOk(s, l, t);
    assert ThreadOk(cfg, s.heap, l, th);
    InsertFits(cfg, s, t);
    LinkNodeAbs(s.heap, l, th.prev.cell, th.newNode);
    CustodyQuiet(cfg, s, Go(t));
  }

  lemma CustodyCasNo(cfg: Config, s: State, t: nat)
    requires Inv(cfg, s) && Custody(s) && t < |s.threads|
    requires s.threads[t].pc in {Help, CasInsert, CasUnlink} && !CasHolds(s, s.threads[t])
    ensures Custody(StepGo(cfg, s, t))
  {
    assert HoldsOk(s, Linked(s.heap), t);
    CustodyQuiet(cfg, s, Go(t));
  }

  lemma CustodyStep(cfg: Config, s: State, e: Event)
    requires Inv(cfg, s) && Custody(s) && Enabled(cfg, s, e)
    ensures Custody(Step(cfg, s, e))
  {
    match e
    case Call(t, op) => CustodyCall(cfg, s, t, op);
    case Drop(t, n) => CustodyDrop(cfg, s, t, n);
    case Go(t) =>
      match s.threads[t].pc
      case Help | CasUnlink =>
        if CasHolds(s, s.threads[t]) { CustodyUnlink(cfg, s, t); } else { CustodyCasNo(cfg, s, t); }
      case CasInsert =>
        if CasHolds(s, s.threads[t]) { CustodyInsert(cfg, s, t); } else { CustodyCasNo(cfg, s, t); }
      case LinkNew => CustodyLink(cfg, s, t);
      case CasMark => CustodyMark(cfg, s, t);
      case DelNew => CustodyDelNew(cfg, s, t);
      case Retire | Scan | Sweep => CustodyRetire(cfg, s, e);
      case _ => CustodyLocal(cfg, s, e);
  }

  // --------------------------------------------------------- protection is kept

  /** A guard survives every step, provided its slot holds the node at the step. */
  lemma SparesStep(cfg: Config, s: State, e: Event, k: nat, n: Ptr)
    requires Enabled(cfg, s, e) && k / 2 < |s.threads| && SlotAt(s, k) == n && n != NULL
    requires Spares(s.threads[e.t], n, k)
    ensures Spares(Step(cfg, s, e).threads[e.t], n, k)
  {
    var th, th' := s.threads[e.t], Step(cfg, s, e).threads[e.t];
    if e.Go? && th.pc in {Retire, Sweep} {
      AfterRetireLeaves(th);
      AfterRetireLeaves(th.(retired := th.retired + {th.cur}));
      assert th'.pc == Scan ==> th'.slot == 0;
    } else if e.Go? && th.pc == Scan {
      ScanSpares(s, e.t, k, n);
    } else if e.Go? {
      GoOutside(cfg, s, e.t);
    }
  }

  lemma ScanSpares(s: State, t: nat, k: nat, n: Ptr)
    requires t < |s.threads| && s.threads[t].pc == Scan
    requires k / 2 < |s.threads| && SlotAt(s, k) == n && n != NULL && Spares(s.threads[t], n, k)
    ensures Spares(StepScan(s, t).threads[t], n, k)
  {
  }

  lemma GoOutside(cfg: Config, s: State, t: nat)
    requires t < |s.threads| && s.threads[t].pc !in {Idle, Retire, Scan, Sweep}
    ensures StepGo(cfg, s, t).threads[t].pc !in {Scan, Sweep}
  {
  }

  /** What a step frees: a retired node that no slot held, or an unpublished one. */
  function FreedBy(s: State, e: Event): set<Ptr>
    requires e.t < |s.threads|
  {
    var th := s.threads[e.t];
    match e
    case Call(_, _) => {}
    case Drop(_, m) => if m in th.active then {} else {m}
    case Go(_) => if th.pc == DelNew then {th.newNode} else {}
  }

  lemma FreedIs(cfg: Config, s: State, e: Event)
    requires Enabled(cfg, s, e)
    ensures Step(cfg, s, e).freed == s.freed + FreedBy(s, e)
  {
  }

  /** No step frees a guarded node that has been published. */
  lemma GuardStep(cfg: Config, s: State, e: Event, k: nat, n: Ptr)
    requires Inv(cfg, s) && Custody(s) && Enabled(cfg, s, e)
    requires k / 2 < |s.threads| && SlotAt(s, k) == n
    requires Published(s.heap, Linked(s.heap), n) && Guarded(s, k, n)
    ensures Guarded(Step(cfg, s, e), k, n)
  {
    var s' := Step(cfg, s, e);
    CustodyFrame(cfg, s, e);
    assert n != NULL;
    SparesStep(cfg, s, e, k, n);
    forall u | 0 <= u < |s'.threads|
      ensures Spares(s'.threads[u], n, k)
    {
      if u != e.t {
        assert s'.threads[u] == s.threads[u];
      }
    }
    NotFreed(cfg, s, e, k, n);
  }

  lemma NotFreed(cfg: Config, s: State, e: Event, k: nat, n: Ptr)
    requires Inv(cfg, s) && Custody(s) && Enabled(cfg, s, e)
    requires Published(s.heap, Linked(s.heap), n) && Guarded(s, k, n)
    ensures n !in Step(cfg, s, e).freed
  {
    hide Linked, Abs, HeapOk, Grows, Fits, Step;
    FreedIs(cfg, s, e);
    assert Spares(s.threads[e.t], n, k);
    assert HoldsOk(s, Linked(s.heap), e.t);
    assert ThreadOk(cfg, s.heap, Linked(s.heap), s.threads[e.t]);
  }

  /** A linked node is in nobody's retired list, so any slot guards it. */
  lemma LinkedGuarded(s: State, k: nat, n: Ptr)
    requires Custody(s) && n in Linked(s.heap)
    ensures Guarded(s, k, n)
  {
    forall u | 0 <= u < |s.threads|
      ensures Spares(s.threads[u], n, k)
    {
      assert HoldsOk(s, Linked(s.heap), u);
    }
  }

  /** Passing the test of *prev means that cur is linked at that moment. */
  lemma ValidatedIsLinked(cfg: Config, s: State, t: nat)
    requires Inv(cfg, s) && t < |s.threads| && s.threads[t].pc == Check1 && CasHolds(s, s.threads[t])
    ensures s.threads[t].cur in Linked(s.heap)
  {
    var th := s.threads[t];
    assert ThreadOk(cfg, s.heap, Linked(s.heap), th);
    if th.prev.At? {
      CasCell(cfg, s, t);
      assert Succ(s.heap, Linked(s.heap), th.prev.cell);
    }
  }

  /** The nodes a thread relies on have been published. */
  lemma RelianceOk(cfg: Config, s: State, t: nat)
    requires Inv(cfg, s) && t < |s.threads|
    ensures var th, l := s.threads[t], Linked(s.heap);
            && ((UsesPrev(th) || th.pc in {Swap1, Swap2}) && th.prev.At? && th.prev.cell != HEAD ==>
                Published(s.heap, l, th.prev.cell))
            && (UsesCur(th) || th.pc == Swap1 ==> Published(s.heap, l, th.cur))
            && (th.pc == Swap1 ==> th.prev == At(th.cur))
            && (th.pc == Swap2 ==> th.prev.At?)
  {
    assert ThreadOk(cfg, s.heap, Linked(s.heap), s.threads[t]);
  }

  /** A step of another thread. */
  lemma ProtectedOther(cfg: Config, s: State, e: Event, t: nat)
    requires SafeConfig(cfg) && Inv(cfg, s) && Custody(s) && Enabled(cfg, s, e)
    requires t < |s.threads| && e.t != t && Protected(cfg, s, t)
    ensures t < |Step(cfg, s, e).threads| && Protected(cfg, Step(cfg, s, e), t)
  {
    CustodyFrame(cfg, s, e);
    RelianceOk(cfg, s, t);
    var th := s.threads[t];
    if UsesPrev(th) && th.prev.At? && th.prev.cell != HEAD {
      GuardStep(cfg, s, e, 2 * t + 1, th.prev.cell);
    }
    if UsesCur(th) || th.pc == Swap1 {
      GuardStep(cfg, s, e, 2 * t, th.cur);
    }
  }

  /** The guards a thread holds before its own step still hold after it. */
  lemma OwnGuards(cfg: Config, s: State, e: Event)
    requires Inv(cfg, s) && Custody(s) && Enabled(cfg, s, e) && Protected(cfg, s, e.t)
    ensures var th, s' := s.threads[e.t], Step(cfg, s, e);
            && (UsesPrev(th) && th.prev.At? && th.prev.cell != HEAD ==> Guarded(s', 2 * e.t + 1, th.prev.cell))
            && (UsesCur(th) || th.pc == Swap1 ==> Guarded(s', 2 * e.t, th.cur))
  {
    var t, th := e.t, s.threads[e.t];
    RelianceOk(cfg, s, t);
    if UsesPrev(th) && th.prev.At? && th.prev.cell != HEAD {
      GuardStep(cfg, s, e, 2 * t + 1, th.prev.cell);
    }
    if UsesCur(th) || th.pc == Swap1 {
      GuardStep(cfg, s, e, 2 * t, th.cur);
    }
  }

  /** The slots are read in rising order: moving a node from slot 0 to slot 1 in one
      step hides it from no scan. */
  lemma GuardRises(s: State, k: nat, n: Ptr)
    requires Guarded(s, k, n)
    ensures Guarded(s, k + 1, n)
  {
  }

  lemma OwnSwap(cfg: Config, s: State, t: nat)
    requires SafeConfig(cfg) && Inv(cfg, s) && Custody(s) && t < |s.threads| && Protected(cfg, s, t)
    requires s.threads[t].pc in {Swap1, Swap2}
    ensures Protected(cfg, StepGo(cfg, s, t), t)
  {
    hide Linked, Abs, HeapOk, Grows, Fits;
    var th, s' := s.threads[t], StepGo(cfg, s, t);
    RelianceOk(cfg, s, t);
    if th.pc == Swap1 {
      OwnGuards(cfg, s, Go(t));
      GuardRises(s', 2 * t, th.cur);
    } else {
      assert |s'.threads| == 1;
    }
  }

  lemma OwnCheck1(cfg: Config, s: State, t: nat)
    requires Inv(cfg, s) && Custody(s) && t < |s.threads| && Protected(cfg, s, t)
    requires s.threads[t].pc == Check1
    ensures Protected(cfg, StepGo(cfg, s, t), t)
  {
    OwnGuards(cfg, s, Go(t));
    if CasHolds(s, s.threads[t]) {
      ValidatedIsLinked(cfg, s, t);
      CustodyStep(cfg, s, Go(t));
      LinkedGuarded(StepGo(cfg, s, t), 2 * t, s.threads[t].cur);
    }
  }

  lemma OwnRead(cfg: Config, s: State, t: nat)
    requires Inv(cfg, s) && Custody(s) && t < |s.threads| && Protected(cfg, s, t)
    requires s.threads[t].pc in {ReadStart, SetHp, ReadNext, ReadKey, Check2, ReadVal, Return}
    ensures Protected(cfg, StepGo(cfg, s, t), t)
  {
    hide Linked, Abs, HeapOk, Grows, Fits;
    OwnGuards(cfg, s, Go(t));
  }

  lemma OwnWrite(cfg: Config, s: State, t: nat)
    requires Inv(cfg, s) && Custody(s) && t < |s.threads| && Protected(cfg, s, t)
    requires Writes(s.threads[t].pc) || s.threads[t].pc == DelNew
    ensures Protected(cfg, StepGo(cfg, s, t), t)
  {
    hide Linked, Abs, HeapOk, Grows, Fits;
    OwnGuards(cfg, s, Go(t));
    RelianceOk(cfg, s, t);
  }

  lemma OwnRetire(cfg: Config, s: State, e: Event)
    requires Inv(cfg, s) && Custody(s) && Enabled(cfg, s, e) && Protected(cfg, s, e.t)
    requires !e.Call? && s.threads[e.t].pc in {Retire, Scan, Sweep}
    ensures Protected(cfg, Step(cfg, s, e), e.t)
  {
    OwnGuards(cfg, s, e);
    RetireThread(cfg, s, e);
  }

  lemma RetireThread(cfg: Config, s: State, e: Event)
    requires Enabled(cfg, s, e) && !e.Call? && s.threads[e.t].pc in {Retire, Scan, Sweep}
    ensures var th, th' := s.threads[e.t], Step(cfg, s, e).threads[e.t];
            && th'.prev == th.prev && th'.hp1 == th.hp1
            && th'.pc in {Scan, Sweep, SetHp, LinkNew, Return}
            && (th.after == Finish ==> th'.pc in {Scan, Sweep, Return} && th'.after == Finish)
  {
  }

  lemma ProtectedOwn(cfg: Config, s: State, e: Event)
    requires SafeConfig(cfg) && Inv(cfg, s) && Custody(s) && Enabled(cfg, s, e) && Protected(cfg, s, e.t)
    ensures Protected(cfg, Step(cfg, s, e), e.t)
  {
    match e
    case Call(_, _) =>
    case Drop(_, _) => OwnRetire(cfg, s, e);
    case Go(t) =>
      match s.threads[t].pc
      case Swap1 | Swap2 => OwnSwap(cfg, s, t);
      case Check1 => OwnCheck1(cfg, s, t);
      case Help | LinkNew | CasInsert | CasMark | CasUnlink | DelNew => OwnWrite(cfg, s, t);
      case Retire | Scan | Sweep => OwnRetire(cfg, s, e);
      case _ => OwnRead(cfg, s, t);
  }

  lemma ProtectedStep(cfg: Config, s: State, e: Event)
    requires SafeConfig(cfg) && Inv(cfg, s) && Custody(s) && Enabled(cfg, s, e) && AllProtected(cfg, s)
    ensures AllProtected(cfg, Step(cfg, s, e))
  {
    CustodyFrame(cfg, s, e);
    forall t | 0 <= t < |s.threads|
      ensures Protected(cfg, Step(cfg, s, e), t)
    {
      assert Protected(cfg, s, t);
      if t == e.t {
        ProtectedOwn(cfg, s, e);
      } else {
        ProtectedOther(cfg, s, e, t);
      }
    }
  }

  // -------------------------------------------------------------------- over runs

  lemma CustodyInit(cfg: Config, s: State)
    requires Init(cfg, s)
    ensures Custody(s) && AllProtected(cfg, s)
  {
  }

  /** In every run, every unlinked node has exactly one holder or has been freed. */
  lemma {:induction false} CustodyRun(cfg: Config, r: Run, i: nat)
    requires ValidRun(cfg, r) && i < |r.states|
    ensures Custody(r.states[i])
    decreases i
  {
    if i == 0 {
      CustodyInit(cfg, r.states[0]);
    } else {
      CustodyRun(cfg, r, i - 1);
      InvRun(cfg, r, i - 1);
      assert Follows(cfg, r, i - 1);
      CustodyStep(cfg, r.states[i - 1], r.events[i - 1]);
    }
  }

  lemma {:induction false} ProtectedRun(cfg: Config, r: Run, i: nat)
    requires SafeConfig(cfg) && ValidRun(cfg, r) && i < |r.states|
    ensures AllProtected(cfg, r.states[i])
    decreases i
  {
    if i == 0 {
      CustodyInit(cfg, r.states[0]);
    } else {
      ProtectedRun(cfg, r, i - 1);
      InvRun(cfg, r, i - 1);
      CustodyRun(cfg, r, i - 1);
      assert Follows(cfg, r, i - 1);
      ProtectedStep(cfg, r.states[i - 1], r.events[i - 1]);
    }
  }

  /** A protected thread's next step touches no freed cell. */
  lemma StepIsSafe(cfg: Config, s: State, e: Event)
    requires Inv(cfg, s) && Custody(s) && Enabled(cfg, s, e) && Protected(cfg, s, e.t)
    ensures Touches(s, e) !! s.freed
  {
    hide Linked, Abs;
    var l := Linked(s.heap);
    assert HoldsOk(s, l, e.t);
    assert HEAD in l;
    assert ThreadOk(cfg, s.heap, l, s.threads[e.t]);
  }

  /** Reclamation safety: with the exchange as one step, or with a single thread, no
      step of any run reads, writes, compares or deletes a cell that has been freed. */
  lemma ReclamationSafety(cfg: Config, r: Run, i: nat)
    requires SafeConfig(cfg) && ValidRun(cfg, r) && i < |r.events|
    ensures r.events[i].t < |r.states[i].threads|
    ensures Touches(r.states[i], r.events[i]) !! r.states[i].freed
  {
    InvRun(cfg, r, i);
    CustodyRun(cfg, r, i);
    ProtectedRun(cfg, r, i);
    assert Follows(cfg, r, i);
    assert Protected(cfg, r.states[i], r.events[i].t);
    StepIsSafe(cfg, r.states[i], r.events[i]);
  }

  // -------------------------------------------------- nothing freed is expected

  /** The thread is going to compare-and-swap *prev from the node cur. */
  predicate Expects(th: Thread) {
    th.pc in {Help, LinkNew, CasInsert, CasUnlink} && th.cur != NULL
  }

  /** From its validation until the compare-and-swap, cur stays in the thread's first slot. */
  ghost predicate CurHeld(s: State, t: nat)
    requires t < |s.threads|
  {
    var th := s.threads[t];
    UsesCur(th) || Expects(th) ==> th.hp0 == th.cur && Guarded(s, 2 * t, th.cur)
  }

  lemma ExpectedPublished(cfg: Config, s: State, t: nat)
    requires Inv(cfg, s) && t < |s.threads| && (UsesCur(s.threads[t]) || Expects(s.threads[t]))
    ensures Published(s.heap, Linked(s.heap), s.threads[t].cur)
  {
    assert ThreadOk(cfg, s.heap, Linked(s.heap), s.threads[t]);
  }

  /** What is guarded for a thread stays so over any step. */
  lemma CurGuarded(cfg: Config, s: State, e: Event, t: nat)
    requires Inv(cfg, s) && Custody(s) && Enabled(cfg, s, e) && t < |s.threads| && CurHeld(s, t)
    requires UsesCur(s.threads[t]) || Expects(s.threads[t])
    ensures Guarded(Step(cfg, s, e), 2 * t, s.threads[t].cur)
  {
    hide Linked, HeapOk, Inv, Custody, Enabled, Step, Guarded;
    ExpectedPublished(cfg, s, t);
    GuardStep(cfg, s, e, 2 * t, s.threads[t].cur);
  }

  /** A thread comes to its compare-and-swap with the cur that it has been reading. */
  lemma ExpectsFrom(cfg: Config, s: State, e: Event)
    requires Enabled(cfg, s, e) && Expects(Step(cfg, s, e).threads[e.t])
    ensures var th, th' := s.threads[e.t], Step(cfg, s, e).threads[e.t];
            && (UsesCur(th) || Expects(th)) && th'.prev == th.prev && th'.cur == th.cur && th'.hp0 == th.hp0
            && th.pc !in {Help, CasInsert, CasUnlink} && (th'.pc != CasUnlink ==> th.pc != CasMark)
  {
    hide StepGo, Legal;
    if e.Go? {
      if s.threads[e.t].pc in {Retire, Scan, Sweep} {
        RetireExpectsNone(cfg, s, e.t);
      } else {
        ExpectsGo(cfg, s, e.t);
      }
    }
  }

  lemma RetireExpectsNone(cfg: Config, s: State, t: nat)
    requires t < |s.threads| && s.threads[t].pc in {Retire, Scan, Sweep}
    ensures !Expects(StepGo(cfg, s, t).threads[t])
  {
  }

  lemma ExpectsGo(cfg: Config, s: State, t: nat)
    requires t < |s.threads| && s.threads[t].pc !in {Idle, Retire, Scan, Sweep}
    requires Expects(StepGo(cfg, s, t).threads[t])
    ensures var th, th' := s.threads[t], StepGo(cfg, s, t).threads[t];
            && (UsesCur(th) || Expects(th)) && th'.prev == th.prev && th'.cur == th.cur && th'.hp0 == th.hp0
            && th.pc !in {Help, CasInsert, CasUnlink} && (th'.pc != CasUnlink ==> th.pc != CasMark)
  {
    hide CasHolds, Load, Local1, StepScan, StepRetire, AfterRetire;
    if !Writes(s.threads[t].pc) && s.threads[t].pc != DelNew {
      ExpectsLocal(cfg, s, s.threads[t]);
    }
  }

  lemma ExpectsLocal(cfg: Config, s: State, th: Thread)
    requires th.pc !in {Idle, Retire, Scan, Sweep, DelNew} && !Writes(th.pc) && Expects(Local1(cfg, s, th))
    ensures var th' := Local1(cfg, s, th);
            && UsesCur(th) && th'.prev == th.prev && th'.cur == th.cur && th'.hp0 == th.hp0
            && (th'.pc != CasUnlink ==> th.pc != CasMark)
  {
    hide CasHolds, Load;
  }

  /** A thread comes to read cur only by a check, or goes on reading it. */
  lemma UsesFrom(cfg: Config, s: State, e: Event)
    requires Enabled(cfg, s, e) && UsesCur(Step(cfg, s, e).threads[e.t]) && s.threads[e.t].pc != Check1
    ensures var th, th' := s.threads[e.t], Step(cfg, s, e).threads[e.t];
            UsesCur(th) && th'.prev == th.prev && th'.cur == th.cur && th.pc != CasMark
  {
    hide Linked, Abs, Load, CasHolds;
  }

  lemma CurHeldStep(cfg: Config, s: State, e: Event, t: nat)
    requires Inv(cfg, s) && Custody(s) && Enabled(cfg, s, e) && t < |s.threads| && CurHeld(s, t)
    requires t < |Step(cfg, s, e).threads| && Protected(cfg, Step(cfg, s, e), t)
    ensures CurHeld(Step(cfg, s, e), t)
  {
    hide Linked, HeapOk, Inv, Custody, Step, Guarded;
    CustodyFrame(cfg, s, e);
    if Expects(Step(cfg, s, e).threads[t]) {
      if e.t == t {
        ExpectsFrom(cfg, s, e);
      }
      CurGuarded(cfg, s, e, t);
    }
  }

  lemma {:induction false} CurHeldRun(cfg: Config, r: Run, i: nat, t: nat)
    requires SafeConfig(cfg) && ValidRun(cfg, r) && i < |r.states| && t < |r.states[i].threads|
    ensures CurHeld(r.states[i], t)
    decreases i
  {
    hide Inv, Custody, Step, Guarded, Enabled;
    ProtectedRun(cfg, r, i);
    assert Protected(cfg, r.states[i], t);
    if i == 0 {
      assert r.states[0].threads[t].pc == Idle;
    } else {
      assert Follows(cfg, r, i - 1);
      InvRun(cfg, r, i - 1);
      CustodyRun(cfg, r, i - 1);
      CustodyFrame(cfg, r.states[i - 1], r.events[i - 1]);
      CurHeldRun(cfg, r, i - 1, t);
      CurHeldStep(cfg, r.states[i - 1], r.events[i - 1], t);
    }
  }

  /** At step v thread t finds n behind the given *prev. */
  ghost predicate Validates(r: Run, v: nat, t: nat, prev: Loc, n: Ptr) {
    && v < |r.events| < |r.states| && t < |r.states[v].threads| && r.events[v] == Go(t)
    && r.states[v].threads[t].pc == Check1
    && r.states[v].threads[t].prev == prev && r.states[v].threads[t].cur == n
    && CasHolds(r.states[v], r.states[v].threads[t])
  }

  /** At moment j thread t has n in its first slot, and n is not freed. */
  ghost predicate Keeps(r: Run, j: nat, t: nat, n: Ptr) {
    && j < |r.states| && t < |r.states[j].threads|
    && r.states[j].threads[t].hp0 == n && n !in r.states[j].freed
  }

  ghost predicate KeptSince(r: Run, v: nat, i: nat, t: nat, n: Ptr) {
    forall j {:trigger Keeps(r, j, t, n)} :: v < j <= i ==> Keeps(r, j, t, n)
  }

  /** After step v and before step i thread t makes no compare-and-swap, the marking one
      counted if `all`. */
  ghost predicate NoCasSince(r: Run, v: nat, i: nat, t: nat, all: bool)
    requires i <= |r.events| < |r.states|
  {
    forall j {:trigger r.events[j]} :: v < j < i && r.events[j].t == t && t < |r.states[j].threads| ==>
      r.states[j].threads[t].pc !in {Help, CasInsert, CasUnlink} && (all ==> r.states[j].threads[t].pc != CasMark)
  }

  lemma KeptOn(r: Run, v: nat, i: nat, t: nat, n: Ptr)
    requires KeptSince(r, v, i, t, n) && Keeps(r, i + 1, t, n)
    ensures KeptSince(r, v, i + 1, t, n)
  {
  }

  /** What a thread knows of the node it relies on is not out of date. */
  lemma {:induction false} ValidatedSince(cfg: Config, r: Run, i: nat, t: nat) returns (v: nat)
    requires SafeConfig(cfg) && ValidRun(cfg, r) && i < |r.states| && t < |r.states[i].threads|
    requires UsesCur(r.states[i].threads[t]) || Expects(r.states[i].threads[t])
    ensures v < i && Validates(r, v, t, r.states[i].threads[t].prev, r.states[i].threads[t].cur)
    ensures KeptSince(r, v, i, t, r.states[i].threads[t].cur)
    ensures NoCasSince(r, v, i, t, r.states[i].threads[t].pc != CasUnlink)
    decreases i
  {
    hide Inv, Custody, Step, Enabled, CasHolds, KeptSince, Expects, UsesCur;
    var n := r.states[i].threads[t].cur;
    CurHeldRun(cfg, r, i, t);
    assert Keeps(r, i, t, n);
    assert i > 0 by { NobodyAtFirst(cfg, r, i, t); }
    assert Follows(cfg, r, i - 1);
    var s, e := r.states[i - 1], r.events[i - 1];
    CustodyFrame(cfg, s, e);
    if e.t == t && s.threads[t].pc == Check1 {
      v := i - 1;
      StartsAtCheck(cfg, s, e);
      assert KeptSince(r, v, i, t, n) by { JustNow(r, i, t, n); }
    } else {
      GoesOn(cfg, s, e, t);
      v := ValidatedSince(cfg, r, i - 1, t);
      KeptOn(r, v, i - 1, t, n);
    }
  }

  lemma NobodyAtFirst(cfg: Config, r: Run, i: nat, t: nat)
    requires ValidRun(cfg, r) && i < |r.states| && t < |r.states[i].threads|
    requires UsesCur(r.states[i].threads[t]) || Expects(r.states[i].threads[t])
    ensures i > 0
  {
  }

  lemma JustNow(r: Run, i: nat, t: nat, n: Ptr)
    requires i > 0 && Keeps(r, i, t, n)
    ensures KeptSince(r, i - 1, i, t, n)
  {
  }

  lemma StartsAtCheck(cfg: Config, s: State, e: Event)
    requires Enabled(cfg, s, e) && s.threads[e.t].pc == Check1
    requires UsesCur(Step(cfg, s, e).threads[e.t]) || Expects(Step(cfg, s, e).threads[e.t])
    ensures e.Go? && CasHolds(s, s.threads[e.t])
    ensures var th, th' := s.threads[e.t], Step(cfg, s, e).threads[e.t];
            th'.prev == th.prev && th'.cur == th.cur
  {
    hide Linked, Abs, Load, CasHolds;
  }

  lemma GoesOn(cfg: Config, s: State, e: Event, t: nat)
    requires Enabled(cfg, s, e) && t < |s.threads| && t < |Step(cfg, s, e).threads|
    requires e.t != t || s.threads[t].pc != Check1
    requires UsesCur(Step(cfg, s, e).threads[t]) || Expects(Step(cfg, s, e).threads[t])
    ensures UsesCur(s.threads[t]) || Expects(s.threads[t])
    ensures var th, th' := s.threads[t], Step(cfg, s, e).threads[t];
            && th'.prev == th.prev && th'.cur == th.cur
            && (th'.pc != CasUnlink ==> th.pc != CasUnlink)
            && (e.t == t ==> th.pc !in {Help, CasInsert, CasUnlink} && (th'.pc != CasUnlink ==> th.pc != CasMark))
  {
    hide Linked, Abs, Load, CasHolds, Step, Enabled;
    CustodyFrame(cfg, s, e);
    if e.t == t {
      if Expects(Step(cfg, s, e).threads[t]) {
        ExpectsFrom(cfg, s, e);
      } else {
        UsesFrom(cfg, s, e);
      }
    }
  }

  /** No ABA by reclamation: a compare-and-swap of *prev from a node expects one that
      the thread found behind that same *prev and has kept in its first slot ever since, so its
      address was at no moment in between free to be handed out again. Nor has the thread
      tried another compare-and-swap since, but for marking what it then unlinks. */
  lemma NoAba(cfg: Config, r: Run, i: nat, t: nat)
    requires SafeConfig(cfg) && ValidRun(cfg, r) && i < |r.events| && r.events[i] == Go(t)
    ensures t < |r.states[i].threads|
    ensures var th := r.states[i].threads[t];
            th.pc in {Help, CasInsert, CasUnlink} && th.cur != NULL ==>
              exists v: nat ::
                && v < i && Validates(r, v, t, th.prev, th.cur) && KeptSince(r, v, i, t, th.cur)
                && NoCasSince(r, v, i, t, th.pc != CasUnlink)
  {
    hide KeptSince, NoCasSince, Inv, Step, Validates;
    assert Follows(cfg, r, i);
    var th := r.states[i].threads[t];
    if th.pc in {Help, CasInsert, CasUnlink} && th.cur != NULL {
      var v := ValidatedSince(cfg, r, i, t);
    }
  }

  // ------------------------------------------------------------------ retired once

  /** n has been handed to retireNode. */
  ghost predicate Disposed(s: State, n: Ptr) {
    n in s.freed || exists t :: 0 <= t < |s.threads| && n in s.threads[t].retired
  }

  lemma DisposedStays(cfg: Config, s: State, e: Event, n: Ptr)
    requires Enabled(cfg, s, e) && Disposed(s, n)
    ensures Disposed(Step(cfg, s, e), n)
  {
    var s' := Step(cfg, s, e);
    CustodyFrame(cfg, s, e);
    if n !in s.freed {
      var t :| 0 <= t < |s.threads| && n in s.threads[t].retired;
      RetiredStays(cfg, s, e, t, n);
    } else {
      FreedStays(cfg, s, e);
    }
  }

  lemma FreedStays(cfg: Config, s: State, e: Event)
    requires Enabled(cfg, s, e)
    ensures s.freed <= Step(cfg, s, e).freed
  {
  }

  lemma RetiredStays(cfg: Config, s: State, e: Event, t: nat, n: Ptr)
    requires Enabled(cfg, s, e) && t < |s.threads| && n in s.threads[t].retired
    ensures t < |Step(cfg, s, e).threads| && (n in Step(cfg, s, e).threads[t].retired || n in Step(cfg, s, e).freed)
  {
    hide StepGo, StepCall, StepDrop, Linked;
    CustodyFrame(cfg, s, e);
    if e.t == t {
      match e
      case Call(_, op) => CallRetired(s, t, op);
      case Drop(_, m) => DropRetired(s, t, m);
      case Go(_) => GoRetired(cfg, s, t);
    }
  }

  lemma CallRetired(s: State, t: nat, op: Op)
    requires t < |s.threads|
    ensures StepCall(s, t, op).threads[t].retired == s.threads[t].retired
  {
  }

  lemma DropRetired(s: State, t: nat, n: Ptr)
    requires t < |s.threads|
    ensures s.threads[t].retired <= StepDrop(s, t, n).threads[t].retired + StepDrop(s, t, n).freed
  {
  }

  lemma GoRetired(cfg: Config, s: State, t: nat)
    requires t < |s.threads| && s.threads[t].pc != Idle
    ensures s.threads[t].retired <= StepGo(cfg, s, t).threads[t].retired
  {
    var th := s.threads[t];
    match th.pc
    case Retire | Scan | Sweep =>
      RetireKeepsHeld(cfg, s, t);
    case Help | CasInsert | CasUnlink | LinkNew | CasMark | DelNew =>
    case _ =>
      hide Local1;
      LocalHolds(cfg, s, th);
  }

  lemma {:induction false} DisposedLater(cfg: Config, r: Run, i: nat, j: nat, n: Ptr)
    requires ValidRun(cfg, r) && i <= j < |r.states| && Disposed(r.states[i], n)
    ensures Disposed(r.states[j], n)
    decreases j - i
  {
    if i < j {
      DisposedLater(cfg, r, i, j - 1, n);
      assert Follows(cfg, r, j - 1);
      DisposedStays(cfg, r.states[j - 1], r.events[j - 1], n);
    }
  }

  /** Step i hands node n to retireNode. */
  ghost predicate Retires(r: Run, i: nat, n: Ptr) {
    && i < |r.events| < |r.states| && r.events[i].Go? && r.events[i].t < |r.states[i].threads|
    && r.states[i].threads[r.events[i].t].pc == Retire && r.states[i].threads[r.events[i].t].cur == n
  }

  /** Although remover and helpers race to unlink it, no node is retired twice, by
      the same thread or by two. */
  lemma RetiredOnce(cfg: Config, r: Run, i: nat, j: nat, n: Ptr, m: Ptr)
    requires ValidRun(cfg, r) && i < j && Retires(r, i, n) && Retires(r, j, m)
    ensures n != m
  {
    var s, t, u := r.states[j], r.events[j].t, r.events[i].t;
    assert Follows(cfg, r, i) && Follows(cfg, r, j);
    RetireKeepsHeld(cfg, r.states[i], u);
    CustodyFrame(cfg, r.states[i], r.events[i]);
    assert n in r.states[i + 1].threads[u].retired;
    DisposedLater(cfg, r, i + 1, j, n);
    CustodyRun(cfg, r, j);
    assert HoldsOk(s, Linked(s.heap), t);
    forall v | 0 <= v < |s.threads|
      ensures m !in s.threads[v].retired
    {
      assert v != t ==> Apart(s, t, v);
    }
  }
}
