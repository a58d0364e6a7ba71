/**
  Progress of the list's calls: from any moment of any run, a thread that is left alone
  finishes its call.
 */
module ListProgress {
  import opened ListInvariant
  import opened ListMachine
  import opened ListReclamation
  import opened ListShape
  import opened Sets

  /** What the thread knows of the cells is still so: its next tests and
      compare-and-swaps will succeed if nobody interferes. */
  ghost predicate Current(s: State, th: Thread) {
    match th.pc
    case Idle | ReadStart | ReadVal | DelNew | Return => true
    case SetHp | Check1 | ReadNext | Help | LinkNew | CasInsert | CasUnlink => CasHolds(s, th)
    case ReadKey | Check2 | CasMark => CasHolds(s, th) && MarkHolds(s, th)
    case Swap1 | Swap2 => Load(s.heap, th, th.prev) == (th.next, false)
    case Retire | Scan | Sweep => th.after == Resume ==> Load(s.heap, th, th.prev) == (th.next, false)
  }

  /** How much lies before the thread. The parts are compared in this order: whether it
      has to start again, how many nodes are linked, how many of them lie beyond *prev,
      where in the walk it stands, and how far inside a scan. */
  datatype Rank = Rank(stage: nat, links: nat, ahead: nat, place: nat, inner: nat)

  predicate Less(a: Rank, b: Rank) {
    || a.stage < b.stage
    || (a.stage == b.stage && a.links < b.links)
    || (a.stage == b.stage && a.links == b.links && a.ahead < b.ahead)
    || (a.stage == b.stage && a.links == b.links && a.ahead == b.ahead && a.place < b.place)
    || (a.stage == b.stage && a.links == b.links && a.ahead == b.ahead && a.place == b.place && a.inner < b.inner)
  }

  function Place(pc: PC): nat {
    match pc
    case Swap1 => 20 case Swap2 => 19 case Retire => 18 case Scan => 17 case Sweep => 16
    case SetHp => 15 case Check1 => 14 case ReadNext => 13 case ReadKey => 12 case Check2 => 11
    case Help => 10 case LinkNew => 9 case CasInsert => 8 case CasMark => 7 case CasUnlink => 6
    case ReadVal => 5 case DelNew => 4 case ReadStart => 3 case Return => 1 case Idle => 0
  }

  /** The same on the way to finding out that something has changed. */
  function StalePlace(pc: PC): nat {
    match pc
    case ReadNext => 20 case ReadKey => 19 case Check2 => 18 case Swap1 => 17 case Swap2 => 16
    case Retire => 15 case Scan => 14 case Sweep => 13 case SetHp => 12 case Check1 => 11
    case Help => 10 case LinkNew => 9 case CasInsert => 8 case CasMark => 7 case CasUnlink => 6
    case _ => 0
  }

  function Inner(th: Thread, threads: nat): nat {
    match th.pc
    case Scan => if th.slot < 2 * threads then 2 * threads - th.slot else 0
    case Sweep => |th.todo|
    case _ => 0
  }

  ghost function Ahead(h: Heap, l: set<Ptr>, th: Thread): nat
    requires l <= h.Keys
  {
    if th.pc == ReadStart then |l| + 2
    else if th.prev.Local? then |l| + 1
    else if th.prev.cell in h then |Above(h, l, th.prev.cell)|
    else 0
  }

  ghost function RankOf(s: State, t: nat): Rank
    requires t < |s.threads| && Linked(s.heap) <= s.heap.Keys
  {
    var th, l := s.threads[t], Linked(s.heap);
    if th.pc == Idle || th.pc == Return then Rank(0, 0, 0, Place(th.pc), 0)
    else if Current(s, th) then Rank(1, |l|, Ahead(s.heap, l, th), Place(th.pc), Inner(th, |s.threads|))
    else Rank(2, 0, 0, StalePlace(th.pc), Inner(th, |s.threads|))
  }

  // -------------------------------------------------------- steps on stale knowledge

  /** With something changed behind its back the thread goes on for a few steps and then
      starts again, or ends. */
  lemma StaleDrops(cfg: Config, s: State, e: Event)
    requires Inv(cfg, s) && Enabled(cfg, s, e) && !e.Call? && !Current(s, s.threads[e.t])
    requires Linked(Step(cfg, s, e).heap) <= Step(cfg, s, e).heap.Keys && Linked(s.heap) <= s.heap.Keys
    ensures Less(RankOf(Step(cfg, s, e), e.t), RankOf(s, e.t))
  {
    hide Linked, HeapOk, Inv, Ahead, StepGo, StepDrop, Current;
    CustodyFrame(cfg, s, e);
    StalePlaces(s, s.threads[e.t]);
    if s.threads[e.t].pc in {Retire, Scan, Sweep} {
      StaleRetire(cfg, s, e);
    } else {
      StaleGo(cfg, s, e.t);
    }
  }

  lemma StalePlaces(s: State, th: Thread)
    requires !Current(s, th)
    ensures th.pc !in {Idle, ReadStart, ReadVal, DelNew, Return}
    ensures th.pc in {Retire, Scan, Sweep} ==> th.after == Resume
  {
  }

  lemma StaleGo(cfg: Config, s: State, t: nat)
    requires t < |s.threads| && !Current(s, s.threads[t])
    requires s.threads[t].pc !in {Idle, ReadStart, ReadVal, DelNew, Retire, Scan, Sweep, Return}
    ensures var th, s' := s.threads[t], StepGo(cfg, s, t); var th' := s'.threads[t];
            || th'.pc in {ReadStart, Return, ReadVal, DelNew}
            || Current(s', th')
            || (StalePlace(th'.pc) < StalePlace(th.pc) && th'.pc !in {Idle, Retire, Scan, Sweep})
  {
  }

  lemma StaleRetire(cfg: Config, s: State, e: Event)
    requires Enabled(cfg, s, e) && !e.Call? && s.threads[e.t].pc in {Retire, Scan, Sweep}
    requires s.threads[e.t].after == Resume
    ensures var th, th' := s.threads[e.t], Step(cfg, s, e).threads[e.t];
            || th'.pc == Return
            || StalePlace(th'.pc) < StalePlace(th.pc)
            || (th'.pc == th.pc && Inner(th', |s.threads|) < Inner(th, |s.threads|))
    ensures Step(cfg, s, e).threads[e.t].pc !in {Idle, ReadStart, ReadVal, DelNew}
  {
    hide StalePlace, Place;
    RetireDown(cfg, s, e);
    PlacesOfRetire();
  }

  lemma PlacesOfRetire()
    ensures StalePlace(Retire) > StalePlace(Scan) > StalePlace(Sweep) > StalePlace(SetHp) > StalePlace(LinkNew)
    ensures Place(Retire) > Place(Scan) > Place(Sweep) > Place(SetHp) > Place(LinkNew)
  {
  }

  /** retireNode goes on to its next part, or one slot or node further, or comes back. */
  ghost predicate Down(th: Thread, th': Thread, threads: nat) {
    && th'.prev == th.prev && th'.op == th.op
    && (|| (th.pc == Retire && th'.pc == Scan)
        || (th.pc == Scan && th'.pc == Sweep)
        || (th'.pc == th.pc && Inner(th', threads) < Inner(th, threads))
        || (th.after == Resume && th'.pc in {SetHp, LinkNew, Return} && th'.cur == th.next)
        || (th.after == Finish && th'.pc == Return))
    && (th'.pc in {Retire, Scan, Sweep} ==> th'.after == th.after && th'.next == th.next)
  }

  lemma AfterRetireDown(th: Thread, th0: Thread, threads: nat)
    requires th0 == th || th0 == th.(retired := th.retired + {th.cur})
    requires th.pc in {Retire, Sweep}
    ensures Down(th, AfterRetire(th0), threads)
  {
  }

  lemma ScanDown(s: State, t: nat)
    requires t < |s.threads| && s.threads[t].pc == Scan
    ensures StepScan(s, t).heap == s.heap && Down(s.threads[t], StepScan(s, t).threads[t], |s.threads|)
  {
  }

  lemma DropDown(s: State, t: nat, n: Ptr)
    requires t < |s.threads| && s.threads[t].pc == Sweep && n in s.threads[t].todo
    ensures StepDrop(s, t, n).heap == s.heap && Down(s.threads[t], StepDrop(s, t, n).threads[t], |s.threads|)
  {
    assert |s.threads[t].todo - {n}| < |s.threads[t].todo|;
  }

  lemma RetireDown(cfg: Config, s: State, e: Event)
    requires Enabled(cfg, s, e) && !e.Call? && s.threads[e.t].pc in {Retire, Scan, Sweep}
    ensures Step(cfg, s, e).heap == s.heap
    ensures Down(s.threads[e.t], Step(cfg, s, e).threads[e.t], |s.threads|)
  {
    hide Down, AfterRetire, StepScan, StepDrop;
    var th := s.threads[e.t];
    match e
    case Drop(t, n) => DropDown(s, t, n);
    case Go(t) =>
      if th.pc == Scan {
        ScanDown(s, t);
      } else if th.pc == Sweep {
        AfterRetireDown(th, th, |s.threads|);
      } else {
        var th' := th.(retired := th.retired + {th.cur});
        AfterRetireDown(th, th', |s.threads|);
        ToScan(th, |s.threads|);
      }
  }

  lemma ToScan(th: Thread, threads: nat)
    requires th.pc == Retire
    ensures Down(th, th.(retired := th.retired + {th.cur}).(pc := Scan, slot := 0, active := {}), threads)
  {
  }

  // ---------------------------------------------------- steps on current knowledge

  lemma CurrentRetire(cfg: Config, s: State, e: Event)
    requires Enabled(cfg, s, e) && !e.Call? && s.threads[e.t].pc in {Retire, Scan, Sweep}
    requires Current(s, s.threads[e.t])
    ensures var th, s' := s.threads[e.t], Step(cfg, s, e); var th' := s'.threads[e.t];
            && s'.heap == s.heap && th'.prev == th.prev && th'.pc !in {Idle, ReadStart}
            && (th'.pc == Return ||
                (Current(s', th') &&
                 (Place(th'.pc) < Place(th.pc) ||
                  (th'.pc == th.pc && Inner(th', |s.threads|) < Inner(th, |s.threads|)))))
  {
    hide StalePlace, Place, Step, Inner;
    RetireDown(cfg, s, e);
    PlacesOfRetire();
  }

  /** The walk from one test to the next: nothing is written. */
  lemma CurrentWalk(cfg: Config, s: State, t: nat)
    requires t < |s.threads| && s.threads[t].pc in {SetHp, Check1, ReadNext, ReadKey, Swap1, Swap2, ReadVal, DelNew}
    requires Current(s, s.threads[t])
    ensures var th, s' := s.threads[t], StepGo(cfg, s, t); var th' := s'.threads[t];
            && s'.heap == s.heap && th'.prev == th.prev && th'.op == th.op && th'.pc !in {Idle, ReadStart}
            && (th'.pc == Return || (Current(s', th') && Place(th'.pc) < Place(th.pc)))
  {
  }

  lemma CurrentCheck2(cfg: Config, s: State, t: nat)
    requires t < |s.threads| && s.threads[t].pc == Check2 && Current(s, s.threads[t])
    ensures var th, s' := s.threads[t], StepGo(cfg, s, t); var th' := s'.threads[t];
            && s'.heap == s.heap && th'.op == th.op && th'.pc !in {Idle, ReadStart}
            && (th'.pc == Return ||
                (Current(s', th') &&
                 if th'.pc == Swap1 then th'.prev == At(th.cur)
                 else th'.prev == th.prev && Place(th'.pc) < Place(th.pc)))
  {
  }

  lemma CurrentStart(cfg: Config, s: State, t: nat)
    requires Inv(cfg, s) && t < |s.threads| && s.threads[t].pc == ReadStart
    ensures var s' := StepGo(cfg, s, t); var th' := s'.threads[t];
            && s'.heap == s.heap && th'.pc !in {Idle, ReadStart}
            && (th'.pc == Return || (Current(s', th') && (th'.prev.Local? || th'.prev == At(HEAD))))
  {
    hide Linked;
    ShapeOfInv(cfg, s);
  }

  lemma CurrentLink(cfg: Config, s: State, t: nat)
    requires Inv(cfg, s) && t < |s.threads| && s.threads[t].pc == LinkNew && Current(s, s.threads[t])
    ensures var th, s' := s.threads[t], StepGo(cfg, s, t); var th' := s'.threads[t];
            && th'.pc == CasInsert && th'.prev == th.prev && Current(s', th')
            && s'.heap == SetNext(s.heap, th.newNode, th.cur) && Linked(s'.heap) == Linked(s.heap)
            && th.newNode in s.heap
  {
    hide Linked, Abs;
    var th, h, l := s.threads[t], s.heap, Linked(s.heap);
    assert ThreadOk(cfg, h, l, th);
    WritePrivate(h, l, th.newNode, Get(h, th.newNode).(next := th.cur, mark := false));
  }

  lemma CurrentMark(cfg: Config, s: State, t: nat)
    requires Inv(cfg, s) && t < |s.threads| && s.threads[t].pc == CasMark && Current(s, s.threads[t])
    ensures var th, s' := s.threads[t], StepGo(cfg, s, t); var th' := s'.threads[t];
            && th'.pc == CasUnlink && th'.prev == th.prev && Current(s', th')
            && s'.heap == SetMark(s.heap, th.cur) && Linked(s'.heap) == Linked(s.heap)
            && th.cur in s.heap
  {
    hide Linked, Abs;
    var th, h, l := s.threads[t], s.heap, Linked(s.heap);
    assert ThreadOk(cfg, h, l, th);
    MarkNodeAbs(h, l, th.cur);
  }

  lemma CurrentUnlink(cfg: Config, s: State, t: nat)
    requires Inv(cfg, s) && t < |s.threads| && s.threads[t].pc in {Help, CasUnlink} && Current(s, s.threads[t])
    ensures var th, s' := s.threads[t], StepGo(cfg, s, t); var th' := s'.threads[t];
            && th'.pc == Retire && Current(s', th')
            && th.cur in Linked(s.heap) && Linked(s'.heap) == Linked(s.heap) - {th.cur}
  {
    hide Linked, HeapOk, Inv, PrevOk, Deleted;
    UnlinkYes(cfg, s, t);
    CasPrev(cfg, s, t);
    CasIs(cfg, s, t);
  }

  // ------------------------------------------------------------------ the rank drops

  lemma AboveMost(h: Heap, l: set<Ptr>, p: Ptr)
    requires l <= h.Keys && p in h
    ensures |Above(h, l, p)| <= |l|
  {
    SubsetSize(Above(h, l, p), l);
  }

  /** Moving *prev on to cur leaves fewer nodes ahead. */
  lemma AboveDrops(h: Heap, l: set<Ptr>, p: Ptr, q: Ptr)
    requires l <= h.Keys && p in l && q in l && Before(h, p, q)
    ensures |Above(h, l, q)| < |Above(h, l, p)|
  {
    assert q in Above(h, l, p) && q !in Above(h, l, q);
    assert Above(h, l, q) <= Above(h, l, p) - {q};
    SmallerSet(Above(h, l, q), Above(h, l, p), q);
  }

  lemma AboveSame(h: Heap, h': Heap, l: set<Ptr>, th: Thread, th': Thread)
    requires l <= h.Keys && h.Keys <= h'.Keys && (forall n :: n in h ==> h'[n].key == h[n].key)
    requires h'.Keys == h.Keys && th'.prev == th.prev && th.pc != ReadStart && th'.pc != ReadStart
    ensures Ahead(h', l, th') == Ahead(h, l, th)
  {
    if th.prev.At? && th.prev.cell in h {
      assert Above(h', l, th.prev.cell) == Above(h, l, th.prev.cell);
    }
  }

  lemma AheadCheck2(cfg: Config, s: State, t: nat)
    requires Inv(cfg, s) && t < |s.threads| && s.threads[t].pc == Check2 && Current(s, s.threads[t])
    requires Linked(s.heap) <= s.heap.Keys
    ensures var th, l := s.threads[t], Linked(s.heap);
            Ahead(s.heap, l, th.(pc := Swap1, prev := At(th.cur))) < Ahead(s.heap, l, th)
  {
    hide Linked;
    var th, h, l := s.threads[t], s.heap, Linked(s.heap);
    assert ThreadOk(cfg, h, l, th);
    ShapeOfInv(cfg, s);
    if th.prev.At? {
      CasCell(cfg, s, t);
      assert Succ(h, l, th.prev.cell);
      AboveDrops(h, l, th.prev.cell, th.cur);
    } else {
      AboveMost(h, l, th.cur);
    }
  }

  lemma CurrentDrops(cfg: Config, s: State, e: Event)
    requires Inv(cfg, s) && Enabled(cfg, s, e) && !e.Call? && Current(s, s.threads[e.t])
    requires Linked(Step(cfg, s, e).heap) <= Step(cfg, s, e).heap.Keys && Linked(s.heap) <= s.heap.Keys
    ensures e.t < |Step(cfg, s, e).threads| && Less(RankOf(Step(cfg, s, e), e.t), RankOf(s, e.t))
  {
    hide Linked, HeapOk, Inv, Ahead, StepGo, StepDrop, Current, Inner, Place, StalePlace, RankOf;
    CustodyFrame(cfg, s, e);
    match s.threads[e.t].pc
    case Retire | Scan | Sweep => RetireDrops(cfg, s, e);
    case ReadStart => StartDrops(cfg, s, e.t);
    case Check2 => Check2Drops(cfg, s, e.t);
    case LinkNew | CasMark => WriteDrops(cfg, s, e.t);
    case CasInsert | Return => EndDrops(cfg, s, e.t);
    case Help | CasUnlink => UnlinkDrops(cfg, s, e.t);
    case Idle =>
    case _ => WalkDrops(cfg, s, e.t);
  }

  lemma RetireDrops(cfg: Config, s: State, e: Event)
    requires Enabled(cfg, s, e) && !e.Call? && s.threads[e.t].pc in {Retire, Scan, Sweep}
    requires Current(s, s.threads[e.t]) && Linked(s.heap) <= s.heap.Keys
    ensures Step(cfg, s, e).heap == s.heap && e.t < |Step(cfg, s, e).threads|
    ensures Less(RankOf(Step(cfg, s, e), e.t), RankOf(s, e.t))
  {
    hide Linked, Ahead, Step, Current, Inner, Place, StalePlace;
    CustodyFrame(cfg, s, e);
    CurrentRetire(cfg, s, e);
    AboveSame(s.heap, s.heap, Linked(s.heap), s.threads[e.t], Step(cfg, s, e).threads[e.t]);
  }

  lemma WalkDrops(cfg: Config, s: State, t: nat)
    requires t < |s.threads| && s.threads[t].pc in {SetHp, Check1, ReadNext, ReadKey, Swap1, Swap2, ReadVal, DelNew}
    requires Current(s, s.threads[t]) && Linked(s.heap) <= s.heap.Keys
    ensures StepGo(cfg, s, t).heap == s.heap && t < |StepGo(cfg, s, t).threads|
    ensures Less(RankOf(StepGo(cfg, s, t), t), RankOf(s, t))
  {
    hide Linked, Ahead, StepGo, Current, Inner, Place, StalePlace;
    CustodyFrame(cfg, s, Go(t));
    CurrentWalk(cfg, s, t);
    AboveSame(s.heap, s.heap, Linked(s.heap), s.threads[t], StepGo(cfg, s, t).threads[t]);
  }

  lemma WriteDrops(cfg: Config, s: State, t: nat)
    requires Inv(cfg, s) && t < |s.threads| && s.threads[t].pc in {LinkNew, CasMark} && Current(s, s.threads[t])
    requires Linked(StepGo(cfg, s, t).heap) <= StepGo(cfg, s, t).heap.Keys && Linked(s.heap) <= s.heap.Keys
    ensures t < |StepGo(cfg, s, t).threads| && Less(RankOf(StepGo(cfg, s, t), t), RankOf(s, t))
  {
    hide Linked, HeapOk, Inv, Ahead, StepGo, Current, Inner, Place, StalePlace;
    CustodyFrame(cfg, s, Go(t));
    PlacesOfCas();
    if s.threads[t].pc == LinkNew {
      CurrentLink(cfg, s, t);
    } else {
      CurrentMark(cfg, s, t);
    }
    AboveSame(s.heap, StepGo(cfg, s, t).heap, Linked(s.heap), s.threads[t], StepGo(cfg, s, t).threads[t]);
  }

  lemma UnlinkDrops(cfg: Config, s: State, t: nat)
    requires Inv(cfg, s) && t < |s.threads| && s.threads[t].pc in {Help, CasUnlink} && Current(s, s.threads[t])
    requires Linked(StepGo(cfg, s, t).heap) <= StepGo(cfg, s, t).heap.Keys && Linked(s.heap) <= s.heap.Keys
    ensures t < |StepGo(cfg, s, t).threads| && Less(RankOf(StepGo(cfg, s, t), t), RankOf(s, t))
  {
    hide Linked, HeapOk, Inv, Ahead, StepGo, Current, Inner, Place, StalePlace;
    CustodyFrame(cfg, s, Go(t));
    CurrentUnlink(cfg, s, t);
    SmallerSet(Linked(StepGo(cfg, s, t).heap), Linked(s.heap), s.threads[t].cur);
  }

  lemma EndDrops(cfg: Config, s: State, t: nat)
    requires t < |s.threads| && s.threads[t].pc in {CasInsert, Return} && Current(s, s.threads[t])
    requires Linked(StepGo(cfg, s, t).heap) <= StepGo(cfg, s, t).heap.Keys && Linked(s.heap) <= s.heap.Keys
    ensures t < |StepGo(cfg, s, t).threads| && Less(RankOf(StepGo(cfg, s, t), t), RankOf(s, t))
  {
    hide Linked, Ahead, StepGo, Current, Inner, Place, StalePlace;
    CustodyFrame(cfg, s, Go(t));
    PlacesOfCas();
    EndsNow(cfg, s, t);
  }

  lemma EndsNow(cfg: Config, s: State, t: nat)
    requires t < |s.threads| && s.threads[t].pc in {CasInsert, Return} && Current(s, s.threads[t])
    ensures StepGo(cfg, s, t).threads[t].pc == if s.threads[t].pc == CasInsert then Return else Idle
  {
  }

  lemma PlacesOfCas()
    ensures Place(LinkNew) > Place(CasInsert) && Place(CasMark) > Place(CasUnlink) && Place(Return) > Place(Idle)
  {
  }

  lemma StartDrops(cfg: Config, s: State, t: nat)
    requires Inv(cfg, s) && t < |s.threads| && s.threads[t].pc == ReadStart && Linked(s.heap) <= s.heap.Keys
    requires StepGo(cfg, s, t).heap == s.heap || Linked(StepGo(cfg, s, t).heap) <= StepGo(cfg, s, t).heap.Keys
    ensures StepGo(cfg, s, t).heap == s.heap && t < |StepGo(cfg, s, t).threads|
    ensures Less(RankOf(StepGo(cfg, s, t), t), RankOf(s, t))
  {
    hide Linked, HeapOk, Inv, Current, Inner, Place, StalePlace, StepGo;
    CustodyFrame(cfg, s, Go(t));
    CurrentStart(cfg, s, t);
    assert Current(s, s.threads[t]) by { StartCurrent(s, s.threads[t]); }
    var th' := StepGo(cfg, s, t).threads[t];
    if th'.prev == At(HEAD) && HEAD in s.heap {
      AboveMost(s.heap, Linked(s.heap), HEAD);
    }
  }

  lemma StartCurrent(s: State, th: Thread)
    requires th.pc == ReadStart
    ensures Current(s, th)
  {
  }

  lemma Check2Drops(cfg: Config, s: State, t: nat)
    requires Inv(cfg, s) && t < |s.threads| && s.threads[t].pc == Check2 && Current(s, s.threads[t])
    requires Linked(s.heap) <= s.heap.Keys
    ensures StepGo(cfg, s, t).heap == s.heap && t < |StepGo(cfg, s, t).threads|
    ensures Less(RankOf(StepGo(cfg, s, t), t), RankOf(s, t))
  {
    hide Linked, HeapOk, Inv, Current, Inner, Place, StalePlace, StepGo;
    CustodyFrame(cfg, s, Go(t));
    CurrentCheck2(cfg, s, t);
    AheadCheck2(cfg, s, t);
    var th, th' := s.threads[t], StepGo(cfg, s, t).threads[t];
    if th'.pc == Return {
    } else if th'.pc != Swap1 {
      AboveSame(s.heap, s.heap, Linked(s.heap), th, th');
    } else {
      AboveSame(s.heap, s.heap, Linked(s.heap), th.(pc := Swap1, prev := At(th.cur)), th');
    }
  }

  /** Every own step of a call lowers the thread's rank: left alone, it cannot go on
      for ever. */
  lemma RankDrops(cfg: Config, s: State, e: Event)
    requires Inv(cfg, s) && Enabled(cfg, s, e) && !e.Call?
    ensures e.t < |Step(cfg, s, e).threads|
    ensures Linked(Step(cfg, s, e).heap) <= Step(cfg, s, e).heap.Keys && Linked(s.heap) <= s.heap.Keys
    ensures Less(RankOf(Step(cfg, s, e), e.t), RankOf(s, e.t))
  {
    hide Linked, HeapOk, Inv, Ahead, Step, Current, RankOf, Enabled;
    EnabledThread(cfg, s, e);
    CustodyFrame(cfg, s, e);
    InvStep(cfg, s, e);
    ShapeOfInv(cfg, s);
    ShapeOfInv(cfg, Step(cfg, s, e));
    if Current(s, s.threads[e.t]) {
      CurrentDrops(cfg, s, e);
    } else {
      StaleDrops(cfg, s, e);
    }
  }

  // ------------------------------------------------------------------ left alone

  /** A run from s on in which only thread t moves. */
  ghost predicate Alone(cfg: Config, s: State, t: nat, r: Run) {
    && |r.states| == |r.events| + 1 && r.states[0] == s
    && forall i {:trigger Follows(cfg, r, i)} :: 0 <= i < |r.events| ==>
         Follows(cfg, r, i) && r.events[i].t == t && !r.events[i].Call?
  }

  lemma AloneFirst(cfg: Config, s: State, t: nat, e: Event, r: Run)
    requires Enabled(cfg, s, e) && e.t == t && !e.Call? && Alone(cfg, Step(cfg, s, e), t, r)
    ensures Alone(cfg, s, t, Run([s] + r.states, [e] + r.events))
  {
    hide Step, Enabled;
    var r' := Run([s] + r.states, [e] + r.events);
    forall i | 0 <= i < |r'.events|
      ensures Follows(cfg, r', i) && r'.events[i].t == t && !r'.events[i].Call?
    {
      if i > 0 {
        assert Follows(cfg, r, i - 1);
      }
    }
  }

  lemma NextStep(cfg: Config, s: State, t: nat) returns (e: Event)
    requires t < |s.threads| && s.threads[t].pc != Idle
    ensures Enabled(cfg, s, e) && e.t == t && !e.Call?
  {
    var th := s.threads[t];
    if th.pc == Sweep && th.todo != {} {
      var n :| n in th.todo;
      e := Drop(t, n);
    } else {
      e := Go(t);
    }
  }

  /** From every state that the invariant allows, a thread that is left alone comes to
      the end of its call. */
  lemma {:induction false} FinishesAlone(cfg: Config, s: State, t: nat) returns (r: Run)
    requires Inv(cfg, s) && t < |s.threads| && Linked(s.heap) <= s.heap.Keys
    ensures Alone(cfg, s, t, r)
    ensures var last := r.states[|r.states| - 1]; t < |last.threads| && last.threads[t].pc == Idle
    decreases RankOf(s, t).stage, RankOf(s, t).links, RankOf(s, t).ahead, RankOf(s, t).place, RankOf(s, t).inner
  {
    hide Inv, Linked, RankOf, Enabled, Step;
    if s.threads[t].pc == Idle {
      r := Run([s], []);
    } else {
      var e := NextStep(cfg, s, t);
      RankDrops(cfg, s, e);
      InvStep(cfg, s, e);
      var s' := Step(cfg, s, e);
      var rest := FinishesAlone(cfg, s', t);
      AloneFirst(cfg, s, t, e, rest);
      r := Run([s] + rest.states, [e] + rest.events);
    }
  }

  /** At every moment of every run of any number of threads, each thread could finish its
      call by its own steps alone. */
  lemma ObstructionFree(cfg: Config, r: Run, i: nat, t: nat) returns (more: Run)
    requires ValidRun(cfg, r) && i < |r.states| && t < |r.states[i].threads|
    ensures Alone(cfg, r.states[i], t, more)
    ensures var last := more.states[|more.states| - 1]; t < |last.threads| && last.threads[t].pc == Idle
  {
    hide Inv, Linked;
    InvRun(cfg, r, i);
    ShapeOfInv(cfg, r.states[i]);
    more := FinishesAlone(cfg, r.states[i], t);
  }
}
