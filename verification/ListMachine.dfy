/**
  The lock-free list of lock_free_list.hpp, with the hazard pointers of
  hazard_pointers.hpp, as a step system.

  One step is one shared read, store or compare-and-swap (or one thread-local
  move); any number of threads take their steps in any order. A marked pointer
  is a pair (next, mark). Addresses are never handed out twice: a deleted node
  keeps its last contents and its address joins `freed`, so that touching it
  later can be observed.
 */
module ListMachine {

  type Ptr = nat

  const NULL: Ptr := 0

  /** The cell that holds head_: a pseudo-node whose `next` is head_ itself. */
  const HEAD: Ptr := 1

  datatype Node = Node(key: int, value: int, next: Ptr, mark: bool)

  type Heap = map<Ptr, Node>

  datatype Kind = Insert | Remove | Lookup

  /** A call. `start` is the node to start from, or NULL to start at head_. */
  datatype Op = Op(kind: Kind, key: int, value: int, start: Ptr)

  /** Pending, false, true, or true with the value stored through `value`. */
  datatype Result = Pending | Failed | Done | Found(value: int)

  /** What `Node** prev` points at: the caller's local start_ variable, or the
      `next` field of a cell. */
  datatype Loc = Local | At(cell: Ptr)

  datatype Then = Resume | Finish

  /** Where a thread stands; each name is one shared access of the source. */
  datatype PC =
    | Idle
    | ReadStart   // prev = start; cur = *prev
    | SetHp       // hp[0] = cur
    | Check1      // *prev != cur, before reading the node
    | ReadNext    // next = cur->next
    | ReadKey     // cur_key = cur->data
    | Check2      // *prev != cur, after reading the node
    | Help        // CAS(prev, cur, unmarked_next)
    | Swap1       // temp = hp[0]; hp[0] = hp[1]
    | Swap2       // hp[1] = temp; cur = next
    | ReadVal     // *value = cur->value
    | DelNew      // delete new_node
    | LinkNew     // new_node->next = ctx.cur
    | CasInsert   // CAS(ctx.prev, ctx.cur, new_node)
    | CasMark     // CAS(&ctx.cur->next, ctx.next, next_marked)
    | CasUnlink   // CAS(ctx.prev, ctx.cur, ctx.next)
    | Retire      // retired_lists_[me].insert(node)
    | Scan        // one hazard slot is read into active_list
    | Sweep       // one retired node is freed or kept
    | Return

  datatype Thread = Thread(
    pc: PC, op: Op, result: Result,
    prev: Loc, cur: Ptr, next: Ptr, curKey: int,
    newNode: Ptr,                    // new_node of insert
    hp0: Ptr, hp1: Ptr, temp: Ptr,   // the two hazard slots, and the exchange's temp
    retired: set<Ptr>, after: Then,  // retired list; what follows retireNode
    slot: nat, active: set<Ptr>, todo: set<Ptr>)

  datatype State = State(heap: Heap, threads: seq<Thread>, freed: set<Ptr>, alloc: Ptr)

  /** `atomicSwap`: whether the slot exchange is taken as one step.
      `permanent`: the keys that no remove is ever called with (the dummy keys). */
  datatype Config = Config(threads: nat, maxRetired: nat, atomicSwap: bool, permanent: iset<int>)

  datatype Event = Call(t: nat, op: Op) | Go(t: nat) | Drop(t: nat, node: Ptr)

  // ---------------------------------------------------------------- memory

  function Get(h: Heap, p: Ptr): Node {
    if p in h then h[p] else Node(0, 0, NULL, false)
  }

  /** *prev, as the pair (pointer, mark). */
  function Load(h: Heap, th: Thread, loc: Loc): (Ptr, bool) {
    match loc
    case Local => (th.op.start, false)
    case At(p) => (Get(h, p).next, Get(h, p).mark)
  }

  function SetNext(h: Heap, p: Ptr, next: Ptr): Heap {
    h[p := Get(h, p).(next := next, mark := false)]
  }

  function SetMark(h: Heap, p: Ptr): Heap {
    h[p := Get(h, p).(mark := true)]
  }

  // ------------------------------------------------------- reachable nodes

  /** Following `next` k times from `a` arrives at `b`. */
  ghost predicate Reaches(h: Heap, a: Ptr, b: Ptr, k: nat)
    decreases k
  {
    if k == 0 then a == b else a in h && Reaches(h, h[a].next, b, k - 1)
  }

  ghost predicate Reachable(h: Heap, p: Ptr) {
    exists k :: Reaches(h, HEAD, p, k)
  }

  /** The cells on the chain that starts at head_. */
  ghost function Linked(h: Heap): set<Ptr> {
    set p | p in h && Reachable(h, p)
  }

  /** Linked and not logically deleted. */
  ghost predicate Live(h: Heap, p: Ptr) {
    p in Linked(h) && p != HEAD && !h[p].mark
  }

  ghost function LiveKeys(h: Heap): set<int> {
    set p | p in h && Live(h, p) :: h[p].key
  }

  ghost function LiveNode(h: Heap, k: int): (p: Ptr)
    requires k in LiveKeys(h)
    ensures p in h && Live(h, p) && h[p].key == k
  {
    var p :| p in h && Live(h, p) && h[p].key == k;
    p
  }

  /** The abstract map that the list stands for. */
  ghost function Abs(h: Heap): map<int, int> {
    map k | k in LiveKeys(h) :: h[LiveNode(h, k)].value
  }

  // ------------------------------------------------------------------ steps

  /** Control leaves lookupInternal with `false`. */
  function NotFound(th: Thread): Thread {
    match th.op.kind
    case Insert => th.(pc := LinkNew)
    case Remove => th.(pc := Return, result := if th.result == Done then Done else Failed)
    case Lookup => th.(pc := Return, result := Failed)
  }

  /** Control leaves lookupInternal with `true`. */
  function IsFound(th: Thread): Thread {
    match th.op.kind
    case Insert => th.(pc := DelNew)
    case Remove => if th.result == Done then th.(pc := Return) else th.(pc := CasMark)
    case Lookup => th.(pc := ReadVal)
  }

  /** The test of `while (cur != NULL)`. */
  function Loop(th: Thread, cur: Ptr): Thread {
    var th' := th.(cur := cur);
    if cur == NULL then NotFound(th') else th'.(pc := SetHp)
  }

  function AfterRetire(th: Thread): Thread {
    match th.after
    case Resume => Loop(th, th.next)
    case Finish => th.(pc := Return)
  }

  function SlotAt(s: State, k: nat): Ptr
    requires k / 2 < |s.threads|
  {
    if k % 2 == 0 then s.threads[k / 2].hp0 else s.threads[k / 2].hp1
  }

  function Put(s: State, t: nat, th: Thread): State
    requires t < |s.threads|
  {
    s.(threads := s.threads[t := th])
  }

  /** What a caller may ask for: a removal never names a permanent key, and a
      start node is in the list and holds a permanent key below the one sought. */
  ghost predicate Legal(cfg: Config, s: State, op: Op) {
    && (op.kind == Remove ==> op.key !in cfg.permanent)
    && (op.start != NULL ==>
          && op.start in Linked(s.heap) && op.start != HEAD
          && s.heap[op.start].key in cfg.permanent && s.heap[op.start].key < op.key)
  }

  ghost predicate Enabled(cfg: Config, s: State, e: Event) {
    && e.t < |s.threads|
    && match e
       case Call(t, op) => s.threads[t].pc == Idle && Legal(cfg, s, op)
       case Go(t) => s.threads[t].pc != Idle && (s.threads[t].pc == Sweep ==> s.threads[t].todo == {})
       case Drop(t, n) => s.threads[t].pc == Sweep && n in s.threads[t].todo
  }

  function StepCall(s: State, t: nat, op: Op): State
    requires t < |s.threads|
  {
    var th := s.threads[t].(pc := ReadStart, op := op, result := Pending);
    if op.kind == Insert then
      Put(s.(heap := s.heap[s.alloc := Node(op.key, op.value, NULL, false)], alloc := s.alloc + 1),
          t, th.(newNode := s.alloc))
    else
      Put(s, t, th)
  }

  function StepDrop(s: State, t: nat, n: Ptr): State
    requires t < |s.threads|
  {
    var th := s.threads[t];
    if n in th.active then
      Put(s, t, th.(todo := th.todo - {n}))
    else
      Put(s.(freed := s.freed + {n}), t, th.(todo := th.todo - {n}, retired := th.retired - {n}))
  }

  function StepScan(s: State, t: nat): State
    requires t < |s.threads|
  {
    var th := s.threads[t];
    if th.slot < 2 * |s.threads| then
      var p := SlotAt(s, th.slot);
      Put(s, t, th.(slot := th.slot + 1, active := if p == NULL then th.active else th.active + {p}))
    else
      Put(s, t, th.(pc := Sweep, todo := th.retired))
  }

  function StepRetire(cfg: Config, s: State, t: nat): State
    requires t < |s.threads|
  {
    var th := s.threads[t];
    var th' := th.(retired := th.retired + {th.cur});
    if |th'.retired| > cfg.maxRetired then
      Put(s, t, th'.(pc := Scan, slot := 0, active := {}))
    else
      Put(s, t, AfterRetire(th'))
  }

  /** A compare-and-swap of *prev from cur to `target`; a start_ variable is not shared. */
  function CasHolds(s: State, th: Thread): bool {
    Load(s.heap, th, th.prev) == (th.cur, false)
  }

  function StepCas(s: State, t: nat, target: Ptr, yes: Thread, no: Thread): State
    requires t < |s.threads|
  {
    var th := s.threads[t];
    if !CasHolds(s, th) then Put(s, t, no)
    else match th.prev
      case Local => Put(s, t, yes)
      case At(p) => Put(s.(heap := SetNext(s.heap, p, target)), t, yes)
  }

  function StepMark(s: State, t: nat): State
    requires t < |s.threads|
  {
    var th := s.threads[t];
    var node := Get(s.heap, th.cur);
    if node.next == th.next && !node.mark then
      Put(s.(heap := SetMark(s.heap, th.cur)), t, th.(pc := CasUnlink, result := Done))
    else
      Put(s, t, th.(pc := ReadStart))
  }

  function StepCheck2(th: Thread): Thread {
    if th.curKey >= th.op.key then
      if th.curKey == th.op.key then IsFound(th) else NotFound(th)
    else
      th.(pc := Swap1, prev := At(th.cur))
  }

  /** The moves that touch no cell but may read one. */
  function Local1(cfg: Config, s: State, th: Thread): Thread {
    match th.pc
    case ReadStart =>
      var prev := if th.op.start == NULL then At(HEAD) else Local;
      Loop(th.(prev := prev), Load(s.heap, th, prev).0)
    case SetHp => th.(pc := Check1, hp0 := th.cur)
    case Check1 => if CasHolds(s, th) then th.(pc := ReadNext) else th.(pc := ReadStart)
    case ReadNext =>
      var node := Get(s.heap, th.cur);
      th.(next := node.next, pc := if node.mark then Help else ReadKey)
    case ReadKey => th.(curKey := Get(s.heap, th.cur).key, pc := Check2)
    case Check2 => if CasHolds(s, th) then StepCheck2(th) else th.(pc := ReadStart)
    case Swap1 =>
      if cfg.atomicSwap then Loop(th.(temp := th.hp0, hp0 := th.hp1, hp1 := th.hp0), th.next)
      else th.(pc := Swap2, temp := th.hp0, hp0 := th.hp1)
    case Swap2 => Loop(th.(hp1 := th.temp), th.next)
    case ReadVal => th.(pc := Return, result := Found(Get(s.heap, th.cur).value))
    case _ => th.(pc := Idle)   // Return
  }

  function StepGo(cfg: Config, s: State, t: nat): State
    requires t < |s.threads|
  {
    var th := s.threads[t];
    match th.pc
    case Help => StepCas(s, t, th.next, th.(pc := Retire, after := Resume), th.(pc := ReadStart))
    case DelNew => Put(s.(freed := s.freed + {th.newNode}), t, th.(pc := Return, result := Failed))
    case LinkNew => Put(s.(heap := SetNext(s.heap, th.newNode, th.cur)), t, th.(pc := CasInsert))
    case CasInsert => StepCas(s, t, th.newNode, th.(pc := Return, result := Done), th.(pc := ReadStart))
    case CasMark => StepMark(s, t)
    case CasUnlink => StepCas(s, t, th.next, th.(pc := Retire, after := Finish), th.(pc := ReadStart))
    case Retire => StepRetire(cfg, s, t)
    case Scan => StepScan(s, t)
    case Sweep => Put(s, t, AfterRetire(th))
    case _ => Put(s, t, Local1(cfg, s, th))
  }

  function Step(cfg: Config, s: State, e: Event): State
    requires e.t < |s.threads|
  {
    match e
    case Call(t, op) => StepCall(s, t, op)
    case Go(t) => StepGo(cfg, s, t)
    case Drop(t, n) => StepDrop(s, t, n)
  }

  const IdleThread := Thread(
    Idle, Op(Lookup, 0, 0, NULL), Pending, At(HEAD), NULL, NULL, 0, NULL,
    NULL, NULL, NULL, {}, Resume, 0, {}, {})

  /** An empty list; the hazard slots, which the source does not clear, hold
      whatever `slots` says. */
  ghost predicate Init(cfg: Config, s: State) {
    && s.heap == map[HEAD := Node(0, 0, NULL, false)]
    && s.freed == {} && s.alloc == 2
    && |s.threads| == cfg.threads
    && forall t :: 0 <= t < |s.threads| ==>
         s.threads[t] == IdleThread.(hp0 := s.threads[t].hp0, hp1 := s.threads[t].hp1)
  }

  // ------------------------------------------------------------------- runs

  datatype Run = Run(states: seq<State>, events: seq<Event>)

  /** The step at index i is one that the machine may take. */
  ghost predicate Follows(cfg: Config, r: Run, i: nat) {
    && i < |r.events| && |r.states| == |r.events| + 1
    && Enabled(cfg, r.states[i], r.events[i])
    && r.states[i + 1] == Step(cfg, r.states[i], r.events[i])
  }

  ghost predicate ValidRun(cfg: Config, r: Run) {
    && |r.states| == |r.events| + 1
    && Init(cfg, r.states[0])
    && forall i {:trigger Follows(cfg, r, i)} :: 0 <= i < |r.events| ==> Follows(cfg, r, i)
  }
}
