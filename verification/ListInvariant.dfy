/** What holds of the list, and of every thread inside it, after every step of
    every interleaving. */
module ListInvariant {
  import opened ListMachine
  import opened ListShape

  ghost predicate OpOk(cfg: Config, h: Heap, l: set<Ptr>, op: Op) {
    && (op.kind == Remove ==> op.key !in cfg.permanent)
    && (op.start != NULL ==>
          && op.start in h && op.start in l && op.start != HEAD && !h[op.start].mark
          && h[op.start].key in cfg.permanent && h[op.start].key < op.key)
  }

  /** The cell that holds *prev is, or once was, in the list, below the key sought. */
  ghost predicate PrevOk(h: Heap, l: set<Ptr>, th: Thread) {
    match th.prev
    case Local => th.op.start != NULL && th.cur == th.op.start
    case At(p) => (p == HEAD || Published(h, l, p)) && p in h && Below(h, p, th.op.key)
  }

  /** An insert call that has not linked its node yet. */
  predicate Owns(th: Thread) {
    th.op.kind == Insert && th.pc != Idle && th.pc != Return
  }

  ghost predicate NewNodeOk(h: Heap, l: set<Ptr>, th: Thread) {
    && Private(h, l, th.newNode)
    && h[th.newNode].key == th.op.key && h[th.newNode].value == th.op.value
    && !h[th.newNode].mark
  }

  /** Where insert would link its node: below cur, if there is a cur. */
  ghost predicate Gap(h: Heap, l: set<Ptr>, th: Thread) {
    && th.prev.At? && PrevOk(h, l, th)
    && (th.cur != NULL ==> Published(h, l, th.cur) && h[th.cur].key > th.op.key)
  }

  ghost predicate Deleted(h: Heap, l: set<Ptr>, th: Thread) {
    && Published(h, l, th.cur) && h[th.cur].mark && h[th.cur].next == th.next
    && th.prev.At? && PrevOk(h, l, th) && PublishedOrNull(h, l, th.next)
  }

  /** Which results a call may carry at each point. */
  predicate ResultOk(th: Thread) {
    if th.pc == Return then th.result != Pending
    else if th.op.kind == Remove then
      if th.pc == CasMark then th.result == Pending
      else if th.pc == CasUnlink || (th.pc in {Retire, Scan, Sweep} && th.after == Finish) then th.result == Done
      else th.result in {Pending, Done}
    else th.result == Pending
  }

  ghost predicate PcOk(h: Heap, l: set<Ptr>, th: Thread) {
    match th.pc
    case Idle | ReadStart | Return => true
    case SetHp | Check1 | ReadNext => PrevOk(h, l, th) && Published(h, l, th.cur)
    case ReadKey => PrevOk(h, l, th) && Published(h, l, th.cur) && PublishedOrNull(h, l, th.next)
    case Check2 =>
      && PrevOk(h, l, th) && Published(h, l, th.cur) && PublishedOrNull(h, l, th.next)
      && th.curKey == h[th.cur].key
    case Help => Deleted(h, l, th)
    case Swap1 =>
      && PrevOk(h, l, th) && th.prev == At(th.cur) && Published(h, l, th.cur) && PublishedOrNull(h, l, th.next)
    case Swap2 => PrevOk(h, l, th) && th.prev.At? && PublishedOrNull(h, l, th.next)
    case ReadVal => th.op.kind == Lookup && Published(h, l, th.cur) && h[th.cur].key == th.op.key
    case DelNew => th.op.kind == Insert && Published(h, l, th.cur) && h[th.cur].key == th.op.key
    case LinkNew => th.op.kind == Insert && Gap(h, l, th)
    case CasInsert => th.op.kind == Insert && Gap(h, l, th) && th.newNode in h && h[th.newNode].next == th.cur
    case CasMark =>
      && th.op.kind == Remove && th.prev.At? && PrevOk(h, l, th) && PublishedOrNull(h, l, th.next)
      && Published(h, l, th.cur) && h[th.cur].key == th.op.key
    case CasUnlink => th.op.kind == Remove && Deleted(h, l, th)
    case Retire | Scan | Sweep =>
      && (th.after == Resume ==> th.prev.At? && PrevOk(h, l, th) && PublishedOrNull(h, l, th.next))
      && (th.after == Finish ==> th.op.kind == Remove)
  }

  ghost predicate ThreadOk(cfg: Config, h: Heap, l: set<Ptr>, th: Thread) {
    th.pc == Idle ||
    (OpOk(cfg, h, l, th.op) && ResultOk(th) && PcOk(h, l, th) && (Owns(th) ==> NewNodeOk(h, l, th)))
  }

  /** Nodes with permanent keys are never deleted, and fresh addresses are new. */
  ghost predicate CellsOk(cfg: Config, h: Heap, alloc: Ptr) {
    && alloc != NULL
    && (forall n :: n in h ==> n < alloc)
    && (forall n :: n in h && h[n].mark ==> h[n].key !in cfg.permanent)
  }

  ghost predicate NewNodesDiffer(threads: seq<Thread>) {
    forall t, u :: 0 <= t < |threads| && 0 <= u < |threads| && t != u && Owns(threads[t]) && Owns(threads[u]) ==>
      threads[t].newNode != threads[u].newNode
  }

  ghost predicate ThreadsOk(cfg: Config, h: Heap, l: set<Ptr>, threads: seq<Thread>) {
    forall t {:trigger ThreadOk(cfg, h, l, threads[t])} :: 0 <= t < |threads| ==> ThreadOk(cfg, h, l, threads[t])
  }

  ghost predicate Inv(cfg: Config, s: State) {
    && |s.threads| == cfg.threads
    && HeapOk(s.heap, Linked(s.heap))
    && CellsOk(cfg, s.heap, s.alloc)
    && NewNodesDiffer(s.threads)
    && ThreadsOk(cfg, s.heap, Linked(s.heap), s.threads)
  }

  lemma ShapeOfInv(cfg: Config, s: State)
    requires Inv(cfg, s)
    ensures Linked(s.heap) <= s.heap.Keys && Shape(s.heap, Linked(s.heap))
  {
  }

  // ------------------------------------------------------- the thread-local moves

  lemma NotFoundOk(cfg: Config, h: Heap, l: set<Ptr>, th: Thread)
    requires OpOk(cfg, h, l, th.op) && (th.op.kind == Insert ==> NewNodeOk(h, l, th) && Gap(h, l, th))
    requires th.result == Pending || (th.op.kind == Remove && th.result == Done)
    ensures ThreadOk(cfg, h, l, NotFound(th))
  {
  }

  lemma LoopOk(cfg: Config, h: Heap, l: set<Ptr>, th: Thread, cur: Ptr)
    requires OpOk(cfg, h, l, th.op) && (th.op.kind == Insert ==> NewNodeOk(h, l, th))
    requires th.result == Pending || (th.op.kind == Remove && th.result == Done)
    requires PublishedOrNull(h, l, cur) && PrevOk(h, l, th.(cur := cur))
    ensures ThreadOk(cfg, h, l, Loop(th, cur))
  {
    if cur == NULL {
      NotFoundOk(cfg, h, l, th.(cur := cur));
    }
  }

  /** Every move that writes no cell keeps the moving thread in order. */
  lemma LocalOk(cfg: Config, s: State, t: nat)
    requires Inv(cfg, s) && t < |s.threads|
    requires s.threads[t].pc in {ReadStart, SetHp, Check1, ReadNext, ReadKey, Check2, Swap1, Swap2, ReadVal, Return}
    ensures ThreadOk(cfg, s.heap, Linked(s.heap), Local1(cfg, s, s.threads[t]))
  {
    hide Linked, Abs;
    var th, h, l := s.threads[t], s.heap, Linked(s.heap);
    assert ThreadOk(cfg, h, l, th);
    match th.pc
    case ReadStart =>
      var prev := if th.op.start == NULL then At(HEAD) else Local;
      assert Succ(h, l, HEAD);
      LoopOk(cfg, h, l, th.(prev := prev), Load(h, th, prev).0);
    case ReadNext =>
      assert NextOk(h, l, th.cur);
    case Swap1 =>
      if cfg.atomicSwap {
        LoopOk(cfg, h, l, th.(temp := th.hp0, hp0 := th.hp1, hp1 := th.hp0), th.next);
      }
    case Swap2 => LoopOk(cfg, h, l, th.(hp1 := th.temp), th.next);
    case _ =>
  }

  lemma AfterRetireOk(cfg: Config, h: Heap, l: set<Ptr>, th: Thread)
    requires ThreadOk(cfg, h, l, th) && th.pc in {Retire, Scan, Sweep}
    ensures ThreadOk(cfg, h, l, AfterRetire(th))
  {
    if th.after == Resume {
      LoopOk(cfg, h, l, th, th.next);
    }
  }

  // ------------------------------------------------------------------- the frame

  /** A step of another thread leaves this one in order. */
  lemma OthersOk(cfg: Config, h: Heap, l: set<Ptr>, h': Heap, l': set<Ptr>, th: Thread)
    requires ThreadOk(cfg, h, l, th) && Grows(h, l, h', l')
    requires forall n :: n in h' && h'[n].mark ==> h'[n].key !in cfg.permanent
    requires Owns(th) ==> Private(h', l', th.newNode) && h'[th.newNode] == h[th.newNode]
    ensures ThreadOk(cfg, h', l', th)
  {
  }

  /** The other threads' unlinked nodes are untouched. */
  ghost predicate OthersKeep(s: State, t: nat, h': Heap, l': set<Ptr>) {
    forall u :: 0 <= u < |s.threads| && u != t && Owns(s.threads[u]) ==>
      var n := s.threads[u].newNode;
      n in s.heap && Private(h', l', n) && h'[n] == s.heap[n]
  }

  /** A write to a cell that no other thread owns leaves the others' nodes alone. */
  lemma WriteKeeps(cfg: Config, s: State, t: nat, p: Ptr, node: Node, l': set<Ptr>)
    requires Inv(cfg, s) && t < |s.threads|
    requires p == HEAD || Published(s.heap, Linked(s.heap), p) || (Owns(s.threads[t]) && p == s.threads[t].newNode)
    requires l' <= Linked(s.heap) + if Owns(s.threads[t]) then {s.threads[t].newNode} else {}
    ensures OthersKeep(s, t, s.heap[p := node], l')
  {
    forall u | 0 <= u < |s.threads| && u != t && Owns(s.threads[u])
      ensures var n := s.threads[u].newNode;
              n in s.heap && Private(s.heap[p := node], l', n) && s.heap[p := node][n] == s.heap[n]
    {
      assert ThreadOk(cfg, s.heap, Linked(s.heap), s.threads[u]);
    }
  }

  lemma NoWriteKeeps(cfg: Config, s: State, t: nat)
    requires Inv(cfg, s) && t < |s.threads|
    ensures OthersKeep(s, t, s.heap, Linked(s.heap))
  {
    forall u | 0 <= u < |s.threads| && u != t && Owns(s.threads[u])
      ensures s.threads[u].newNode in s.heap && Private(s.heap, Linked(s.heap), s.threads[u].newNode)
    {
      assert ThreadOk(cfg, s.heap, Linked(s.heap), s.threads[u]);
    }
  }

  /** The general step: the memory grows, one thread moves. */
  lemma StepOk(cfg: Config, s: State, s': State, t: nat, l': set<Ptr>)
    requires Inv(cfg, s) && t < |s.threads| && |s'.threads| == |s.threads| &&
             s'.threads == s.threads[t := s'.threads[t]]
    requires HeapOk(s'.heap, l') && l' == Linked(s'.heap) && Grows(s.heap, Linked(s.heap), s'.heap, l')
    requires CellsOk(cfg, s'.heap, s'.alloc)
    requires ThreadOk(cfg, s'.heap, l', s'.threads[t])
    requires OthersKeep(s, t, s'.heap, l')
    requires NewNodesDiffer(s'.threads)
    ensures Inv(cfg, s')
  {
    forall u | 0 <= u < |s'.threads|
      ensures ThreadOk(cfg, s'.heap, l', s'.threads[u])
    {
      if u != t {
        OthersOk(cfg, s.heap, Linked(s.heap), s'.heap, l', s.threads[u]);
      }
    }
  }

  // ------------------------------------------------------------- the writing steps

  lemma CallOk(cfg: Config, s: State, t: nat, op: Op)
    requires Inv(cfg, s) && Enabled(cfg, s, Call(t, op))
    ensures Inv(cfg, StepCall(s, t, op))
    ensures Abs(StepCall(s, t, op).heap) == Abs(s.heap)
  {
    hide Linked, Abs, Grows;
    var s' := StepCall(s, t, op);
    var l := Linked(s.heap);
    if op.kind == Insert {
      WritePrivate(s.heap, l, s.alloc, Node(op.key, op.value, NULL, false));
    }
    NoWriteKeeps(cfg, s, t);
    StepOk(cfg, s, s', t, l);
  }

  lemma LinkNewOk(cfg: Config, s: State, t: nat)
    requires Inv(cfg, s) && t < |s.threads| && s.threads[t].pc == LinkNew
    ensures Inv(cfg, StepGo(cfg, s, t))
    ensures Abs(StepGo(cfg, s, t).heap) == Abs(s.heap)
  {
    hide Linked, Abs, HeapOk, Grows;
    var th, l := s.threads[t], Linked(s.heap);
    assert ThreadOk(cfg, s.heap, l, th);
    WritePrivate(s.heap, l, th.newNode, Get(s.heap, th.newNode).(next := th.cur, mark := false));
    WriteKeeps(cfg, s, t, th.newNode, Get(s.heap, th.newNode).(next := th.cur, mark := false), l);
    StepOk(cfg, s, StepGo(cfg, s, t), t, l);
  }

  /** When a compare-and-swap on a cell succeeds, the cell is unmarked, hence linked. */
  lemma CasCell(cfg: Config, s: State, t: nat)
    requires Inv(cfg, s) && t < |s.threads| && CasHolds(s, s.threads[t])
    requires s.threads[t].prev.At? && PrevOk(s.heap, Linked(s.heap), s.threads[t])
    ensures s.threads[t].prev.cell in Linked(s.heap)
    ensures s.heap[s.threads[t].prev.cell].next == s.threads[t].cur && !s.heap[s.threads[t].prev.cell].mark
  {
  }

  /** What a compare-and-swap writes, and where it leaves its thread. */
  function CasTarget(th: Thread): Ptr {
    if th.pc == CasInsert then th.newNode else th.next
  }

  function AfterCas(th: Thread): Thread {
    if th.pc == CasInsert then th.(pc := Return, result := Done)
    else th.(pc := Retire, after := if th.pc == Help then Resume else Finish)
  }

  lemma CasIs(cfg: Config, s: State, t: nat)
    requires t < |s.threads| && s.threads[t].pc in {Help, CasInsert, CasUnlink}
    requires CasHolds(s, s.threads[t]) && s.threads[t].prev.At?
    ensures var th := s.threads[t];
            StepGo(cfg, s, t) == Put(s.(heap := SetNext(s.heap, th.prev.cell, CasTarget(th))), t, AfterCas(th))
  {
  }

  lemma MarkIs(cfg: Config, s: State, t: nat)
    requires t < |s.threads| && s.threads[t].pc == CasMark
    ensures var th := s.threads[t];
            StepGo(cfg, s, t) ==
            if MarkHolds(s, th) then Put(s.(heap := SetMark(s.heap, th.cur)), t, th.(pc := CasUnlink, result := Done))
            else Put(s, t, th.(pc := ReadStart))
  {
  }

  lemma InsertFits(cfg: Config, s: State, t: nat)
    requires Inv(cfg, s) && t < |s.threads| && s.threads[t].pc == CasInsert && CasHolds(s, s.threads[t])
    ensures s.threads[t].prev.At?
    ensures Fits(s.heap, Linked(s.heap), s.threads[t].prev.cell, s.threads[t].newNode)
  {
    assert ThreadOk(cfg, s.heap, Linked(s.heap), s.threads[t]);
    CasCell(cfg, s, t);
    assert Succ(s.heap, Linked(s.heap), s.threads[t].prev.cell);
  }

  /** Where a successful compare-and-swap leaves its thread, once the memory has grown. */
  lemma AfterCasOk(cfg: Config, h: Heap, l: set<Ptr>, h': Heap, l': set<Ptr>, th: Thread)
    requires ThreadOk(cfg, h, l, th) && th.pc in {Help, CasInsert, CasUnlink} && Grows(h, l, h', l')
    requires Owns(th) && th.pc != CasInsert ==> Private(h', l', th.newNode) && h'[th.newNode] == h[th.newNode]
    requires forall n :: n in h' && h'[n].mark ==> h'[n].key !in cfg.permanent
    ensures ThreadOk(cfg, h', l', AfterCas(th))
  {
    hide Linked, Abs, HeapOk;
  }

  /** Only the insertion CAS adds a key: its own, with its own value. */
  lemma CasInsertYes(cfg: Config, s: State, t: nat)
    requires Inv(cfg, s) && t < |s.threads| && s.threads[t].pc == CasInsert && CasHolds(s, s.threads[t])
    ensures Inv(cfg, StepGo(cfg, s, t))
    ensures var th := s.threads[t];
            th.op.key !in Abs(s.heap) && Abs(StepGo(cfg, s, t).heap) == Abs(s.heap)[th.op.key := th.op.value]
  {
    hide Linked, Abs, HeapOk, Grows, Fits, StepGo, PcOk, OpOk;
    var th, s', h, l := s.threads[t], StepGo(cfg, s, t), s.heap, Linked(s.heap);
    assert ThreadOk(cfg, h, l, th);
    InsertFits(cfg, s, t);
    CasIs(cfg, s, t);
    var p := th.prev.cell;
    CasPrev(cfg, s, t);
    LinkNode(h, l, p, th.newNode);
    LinkNodeAbs(h, l, p, th.newNode);
    WriteKeeps(cfg, s, t, p, Get(h, p).(next := th.newNode, mark := false), l + {th.newNode});
    AfterCasOk(cfg, h, l, s'.heap, l + {th.newNode}, th);
    StepOk(cfg, s, s', t, l + {th.newNode});
  }

  /** What a thread about to compare-and-swap knows of the cells. */
  lemma CasPrev(cfg: Config, s: State, t: nat)
    requires Inv(cfg, s) && t < |s.threads|
    requires s.threads[t].pc in {Help, CasInsert, CasUnlink} && CasHolds(s, s.threads[t])
    ensures var th, l := s.threads[t], Linked(s.heap);
            && th.prev.At? && PrevOk(s.heap, l, th) && th.prev.cell in l && th.prev.cell in s.heap
            && s.heap[th.prev.cell].next == th.cur && !s.heap[th.prev.cell].mark
            && (th.prev.cell == HEAD || Published(s.heap, l, th.prev.cell))
            && (th.pc != CasInsert ==> Deleted(s.heap, l, th))
            && (th.pc == CasInsert ==> Owns(th) && NewNodeOk(s.heap, l, th) && s.heap[th.newNode].next == th.cur)
  {
    hide Linked, Abs;
    assert ThreadOk(cfg, s.heap, Linked(s.heap), s.threads[t]);
    CasCell(cfg, s, t);
  }

  /** Helping and physical deletion: a marked node is bypassed, the map is unchanged. */
  lemma UnlinkYes(cfg: Config, s: State, t: nat)
    requires Inv(cfg, s) && t < |s.threads| && s.threads[t].pc in {Help, CasUnlink} && CasHolds(s, s.threads[t])
    ensures Inv(cfg, StepGo(cfg, s, t))
    ensures Abs(StepGo(cfg, s, t).heap) == Abs(s.heap)
    ensures s.threads[t].cur in Linked(s.heap)
    ensures Linked(StepGo(cfg, s, t).heap) == Linked(s.heap) - {s.threads[t].cur}
  {
    hide Linked, Abs, HeapOk, Grows, Fits, StepGo, PcOk, OpOk, PrevOk;
    var th, s', h, l := s.threads[t], StepGo(cfg, s, t), s.heap, Linked(s.heap);
    assert ThreadOk(cfg, h, l, th);
    CasPrev(cfg, s, t);
    CasIs(cfg, s, t);
    var p := th.prev.cell;
    UnlinkNode(h, l, p, th.cur);
    UnlinkNodeAbs(h, l, p, th.cur);
    WriteKeeps(cfg, s, t, p, Get(h, p).(next := th.next, mark := false), l - {th.cur});
    OwnsStays(cfg, h, l, s'.heap, th, p);
    AfterCasOk(cfg, h, l, s'.heap, l - {th.cur}, th);
    StepOk(cfg, s, s', t, l - {th.cur});
  }

  /** A write to a published cell leaves the thread's own new node alone. */
  lemma OwnsStays(cfg: Config, h: Heap, l: set<Ptr>, h': Heap, th: Thread, p: Ptr)
    requires ThreadOk(cfg, h, l, th) && (p == HEAD || Published(h, l, p)) && p in h
    requires h' == h[p := Get(h, p).(next := th.next, mark := false)]
    ensures Owns(th) ==> Private(h', l - {th.cur}, th.newNode) && h'[th.newNode] == h[th.newNode]
  {
  }

  /** A compare-and-swap on *prev that fails only sends its thread back to the start. */
  lemma CasNo(cfg: Config, s: State, t: nat)
    requires Inv(cfg, s) && t < |s.threads| && s.threads[t].pc in {Help, CasInsert, CasUnlink} &&
             !CasHolds(s, s.threads[t])
    ensures Inv(cfg, StepGo(cfg, s, t))
    ensures StepGo(cfg, s, t).heap == s.heap
  {
    assert ThreadOk(cfg, s.heap, Linked(s.heap), s.threads[t]);
    NoWriteKeeps(cfg, s, t);
    StepOk(cfg, s, StepGo(cfg, s, t), t, Linked(s.heap));
  }

  predicate MarkHolds(s: State, th: Thread) {
    Get(s.heap, th.cur).next == th.next && !Get(s.heap, th.cur).mark
  }

  /** Only the marking CAS removes a key: the one its call names. */
  lemma CasMarkOk(cfg: Config, s: State, t: nat)
    requires Inv(cfg, s) && t < |s.threads| && s.threads[t].pc == CasMark
    ensures Inv(cfg, StepGo(cfg, s, t))
    ensures var th, s' := s.threads[t], StepGo(cfg, s, t);
            if MarkHolds(s, th)
            then th.op.key in Abs(s.heap) && Abs(s'.heap) == Abs(s.heap) - {th.op.key}
            else s'.heap == s.heap
  {
    hide Inv, StepGo, Abs, Linked;
    MarkIs(cfg, s, t);
    if MarkHolds(s, s.threads[t]) {
      CasMarkYes(cfg, s, t);
    } else {
      CasMarkNo(cfg, s, t);
    }
  }

  lemma CasMarkNo(cfg: Config, s: State, t: nat)
    requires Inv(cfg, s) && t < |s.threads| && s.threads[t].pc == CasMark && !MarkHolds(s, s.threads[t])
    ensures Inv(cfg, StepGo(cfg, s, t))
  {
    hide Linked, Abs, Grows, StepGo, Fits, HeapOk;
    MarkIs(cfg, s, t);
    assert ThreadOk(cfg, s.heap, Linked(s.heap), s.threads[t]);
    NoWriteKeeps(cfg, s, t);
    GrowsItself(s.heap, Linked(s.heap));
    StepOk(cfg, s, StepGo(cfg, s, t), t, Linked(s.heap));
  }

  lemma GrowsItself(h: Heap, l: set<Ptr>)
    requires HeapOk(h, l)
    ensures Grows(h, l, h, l)
  {
  }

  lemma CasMarkYes(cfg: Config, s: State, t: nat)
    requires Inv(cfg, s) && t < |s.threads| && s.threads[t].pc == CasMark && MarkHolds(s, s.threads[t])
    ensures Inv(cfg, StepGo(cfg, s, t))
    ensures var th, s' := s.threads[t], StepGo(cfg, s, t);
            th.op.key in Abs(s.heap) && Abs(s'.heap) == Abs(s.heap) - {th.op.key}
  {
    hide Linked, Abs, Grows, StepGo, Fits, HeapOk, PcOk;
    var th, s', h, l := s.threads[t], StepGo(cfg, s, t), s.heap, Linked(s.heap);
    assert ThreadOk(cfg, h, l, th);
    MarkIs(cfg, s, t);
    MarkKnows(cfg, h, l, th);
    MarkNode(h, l, th.cur);
    MarkNodeAbs(h, l, th.cur);
    WriteKeeps(cfg, s, t, th.cur, Get(h, th.cur).(mark := true), l);
    AfterMarkOk(cfg, h, l, SetMark(h, th.cur), th);
    StepOk(cfg, s, s', t, l);
  }

  lemma MarkKnows(cfg: Config, h: Heap, l: set<Ptr>, th: Thread)
    requires ThreadOk(cfg, h, l, th) && th.pc == CasMark
    ensures Published(h, l, th.cur) && h[th.cur].key == th.op.key && th.op.key !in cfg.permanent && !Owns(th)
  {
  }

  lemma AfterMarkOk(cfg: Config, h: Heap, l: set<Ptr>, h': Heap, th: Thread)
    requires ThreadOk(cfg, h, l, th) && th.pc == CasMark && Grows(h, l, h', l)
    requires h' == SetMark(h, th.cur) && Get(h, th.cur).next == th.next
    requires OpOk(cfg, h', l, th.op)
    ensures ThreadOk(cfg, h', l, th.(pc := CasUnlink, result := Done))
  {
  }

  // -------------------------------------------------------------- steps and runs

  predicate Writes(pc: PC) {
    pc in {Help, LinkNew, CasInsert, CasMark, CasUnlink}
  }

  lemma QuietThread(cfg: Config, s: State, e: Event)
    requires Inv(cfg, s) && Enabled(cfg, s, e) && !e.Call? && !Writes(s.threads[e.t].pc)
    ensures ThreadOk(cfg, s.heap, Linked(s.heap), Step(cfg, s, e).threads[e.t])
  {
    hide Linked, Abs, HeapOk, Grows, StepRetire, StepScan, AfterRetire, Local1;
    var l, th := Linked(s.heap), s.threads[e.t];
    assert ThreadOk(cfg, s.heap, l, th);
    if e.Go? {
      match th.pc
      case Retire => RetireOk(cfg, s, e.t);
      case Scan => ScanOk(cfg, s, e.t);
      case DelNew =>
      case Sweep => AfterRetireOk(cfg, s.heap, l, th);
      case _ => LocalOk(cfg, s, e.t);
    }
  }

  lemma RetireOk(cfg: Config, s: State, t: nat)
    requires t < |s.threads| && s.threads[t].pc == Retire && ThreadOk(cfg, s.heap, Linked(s.heap), s.threads[t])
    ensures ThreadOk(cfg, s.heap, Linked(s.heap), StepRetire(cfg, s, t).threads[t])
  {
    hide Linked, Abs, AfterRetire;
    var th := s.threads[t];
    AfterRetireOk(cfg, s.heap, Linked(s.heap), th.(retired := th.retired + {th.cur}));
  }

  lemma ScanOk(cfg: Config, s: State, t: nat)
    requires t < |s.threads| && s.threads[t].pc == Scan && ThreadOk(cfg, s.heap, Linked(s.heap), s.threads[t])
    ensures ThreadOk(cfg, s.heap, Linked(s.heap), StepScan(s, t).threads[t])
  {
    hide Linked, Abs;
  }

  /** Every other step leaves the memory as it is. */
  lemma QuietFrame(cfg: Config, s: State, e: Event)
    requires Enabled(cfg, s, e) && !e.Call? && !Writes(s.threads[e.t].pc)
    ensures var s' := Step(cfg, s, e);
            && s'.heap == s.heap && s'.alloc == s.alloc && |s'.threads| == |s.threads|
            && s'.threads == s.threads[e.t := s'.threads[e.t]]
            && (Owns(s'.threads[e.t]) ==> Owns(s.threads[e.t]) && s'.threads[e.t].newNode == s.threads[e.t].newNode)
  {
  }

  lemma QuietOk(cfg: Config, s: State, e: Event)
    requires Inv(cfg, s) && Enabled(cfg, s, e) && !e.Call? && !Writes(s.threads[e.t].pc)
    ensures Inv(cfg, Step(cfg, s, e)) && Step(cfg, s, e).heap == s.heap
  {
    QuietThread(cfg, s, e);
    QuietFrame(cfg, s, e);
    NoWriteKeeps(cfg, s, e.t);
    var s' := Step(cfg, s, e);
    assert NewNodesDiffer(s'.threads);
    StepOk(cfg, s, s', e.t, Linked(s.heap));
  }

  lemma InvStep(cfg: Config, s: State, e: Event)
    requires Inv(cfg, s) && Enabled(cfg, s, e)
    ensures Inv(cfg, Step(cfg, s, e))
  {
    if e.Call? {
      CallOk(cfg, s, e.t, e.op);
    } else if Writes(s.threads[e.t].pc) {
      match s.threads[e.t].pc
      case Help | CasUnlink =>
        if CasHolds(s, s.threads[e.t]) { UnlinkYes(cfg, s, e.t); } else { CasNo(cfg, s, e.t); }
      case LinkNew => LinkNewOk(cfg, s, e.t);
      case CasInsert =>
        if CasHolds(s, s.threads[e.t]) { CasInsertYes(cfg, s, e.t); } else { CasNo(cfg, s, e.t); }
      case _ => CasMarkOk(cfg, s, e.t);
    } else {
      QuietOk(cfg, s, e);
    }
  }

  lemma InvInit(cfg: Config, s: State)
    requires Init(cfg, s)
    ensures Inv(cfg, s) && Abs(s.heap) == map[]
  {
    LinkedIsShape(s.heap, {HEAD});
    AbsOf(s.heap, {HEAD});
  }

  /** The invariant holds at every moment of every run. */
  lemma {:induction false} InvRun(cfg: Config, r: Run, i: nat)
    requires ValidRun(cfg, r) && i < |r.states|
    ensures Inv(cfg, r.states[i])
    decreases i
  {
    if i == 0 {
      InvInit(cfg, r.states[0]);
    } else {
      InvRun(cfg, r, i - 1);
      assert Follows(cfg, r, i - 1);
      InvStep(cfg, r.states[i - 1], r.events[i - 1]);
    }
  }

  // ------------------------------------------------------------- one step's growth

  /** No step un-publishes a node, changes a key or value, or touches a marked cell;
      an unmarked linked node stays linked. */
  lemma StepGrows(cfg: Config, s: State, e: Event)
    requires Inv(cfg, s) && Enabled(cfg, s, e)
    ensures Grows(s.heap, Linked(s.heap), Step(cfg, s, e).heap, Linked(Step(cfg, s, e).heap))
  {
    var h, l := s.heap, Linked(s.heap);
    if e.Call? {
      if e.op.kind == Insert {
        WritePrivate(h, l, s.alloc, Node(e.op.key, e.op.value, NULL, false));
      }
    } else if !Writes(s.threads[e.t].pc) {
      QuietFrame(cfg, s, e);
    } else {
      WriteGrows(cfg, s, e.t);
    }
  }

  lemma WriteGrows(cfg: Config, s: State, t: nat)
    requires Inv(cfg, s) && t < |s.threads| && Writes(s.threads[t].pc)
    ensures Grows(s.heap, Linked(s.heap), StepGo(cfg, s, t).heap, Linked(StepGo(cfg, s, t).heap))
  {
    hide Linked, Abs, HeapOk, Fits;
    var h, l, th := s.heap, Linked(s.heap), s.threads[t];
    assert ThreadOk(cfg, h, l, th);
    match th.pc
    case LinkNew => WritePrivate(h, l, th.newNode, Get(h, th.newNode).(next := th.cur, mark := false));
    case CasMark =>
      if MarkHolds(s, th) {
        MarkNode(h, l, th.cur);
        MarkNodeAbs(h, l, th.cur);
      }
    case CasInsert =>
      if CasHolds(s, th) {
        InsertFits(cfg, s, t);
        LinkNode(h, l, th.prev.cell, th.newNode);
        LinkNodeAbs(h, l, th.prev.cell, th.newNode);
      }
    case Help | CasUnlink =>
      if CasHolds(s, th) {
        CasCell(cfg, s, t);
        UnlinkNode(h, l, th.prev.cell, th.cur);
        UnlinkNodeAbs(h, l, th.prev.cell, th.cur);
      }
  }

  /** Growth over any stretch of a run: a marked cell is frozen for good, a published
      node stays published with its key and value, and an inserted node that is not
      marked is still reachable. */
  lemma {:induction false} GrowsOverRun(cfg: Config, r: Run, i: nat, j: nat, n: Ptr)
    requires ValidRun(cfg, r) && i <= j < |r.states|
    requires Published(r.states[i].heap, Linked(r.states[i].heap), n)
    ensures var h, h' := r.states[i].heap, r.states[j].heap;
            && Published(h', Linked(h'), n) && h'[n].key == h[n].key && h'[n].value == h[n].value
            && (h[n].mark ==> h'[n] == h[n])
            && (!h'[n].mark ==> Reachable(h', n))
            && (n !in Linked(h) ==> n !in Linked(h'))
    decreases j - i
  {
    hide Step;
    InvRun(cfg, r, j);
    if i < j {
      GrowsOverRun(cfg, r, i, j - 1, n);
      InvRun(cfg, r, j - 1);
      assert Follows(cfg, r, j - 1);
      StepGrows(cfg, r.states[j - 1], r.events[j - 1]);
      if n !in Linked(r.states[j - 1].heap) {
        StaysOut(cfg, r.states[j - 1], r.events[j - 1], n);
      }
    }
  }

  /** A node that has been unlinked is never linked again. */
  lemma StaysOut(cfg: Config, s: State, e: Event, n: Ptr)
    requires Inv(cfg, s) && Enabled(cfg, s, e) && Published(s.heap, Linked(s.heap), n) && n !in Linked(s.heap)
    ensures n !in Linked(Step(cfg, s, e).heap)
  {
    var h, l, th := s.heap, Linked(s.heap), s.threads[e.t];
    if e.Call? {
      if e.op.kind == Insert {
        WritePrivate(h, l, s.alloc, Node(e.op.key, e.op.value, NULL, false));
      }
    } else if !Writes(th.pc) {
      QuietFrame(cfg, s, e);
    } else {
      WriteStaysOut(cfg, s, e.t, n);
    }
  }

  lemma WriteStaysOut(cfg: Config, s: State, t: nat, n: Ptr)
    requires Inv(cfg, s) && t < |s.threads| && Writes(s.threads[t].pc)
    requires Published(s.heap, Linked(s.heap), n) && n !in Linked(s.heap)
    ensures n !in Linked(StepGo(cfg, s, t).heap)
  {
    hide Linked, Abs;
    var h, l, th := s.heap, Linked(s.heap), s.threads[t];
    assert ThreadOk(cfg, h, l, th);
    match th.pc
    case LinkNew => WritePrivate(h, l, th.newNode, Get(h, th.newNode).(next := th.cur, mark := false));
    case CasMark => if MarkHolds(s, th) { MarkNodeAbs(h, l, th.cur); }
    case CasInsert =>
      if CasHolds(s, th) {
        InsertFits(cfg, s, t);
        LinkNodeAbs(h, l, th.prev.cell, th.newNode);
      }
    case Help | CasUnlink => if CasHolds(s, th) { UnlinkYes(cfg, s, t); }
  }

  /** At every moment of every run the keys along the chain strictly ascend: following
      `next` from a reachable cell reaches a strictly larger key. */
  lemma SortedOverRun(cfg: Config, r: Run, i: nat, p: Ptr)
    requires ValidRun(cfg, r) && i < |r.states| && p in r.states[i].heap && Reachable(r.states[i].heap, p)
    ensures var h := r.states[i].heap;
            h[p].next != NULL ==> h[p].next in h && Reachable(h, h[p].next) && Before(h, p, h[p].next)
  {
    InvRun(cfg, r, i);
    assert Succ(r.states[i].heap, Linked(r.states[i].heap), p);
  }
}
