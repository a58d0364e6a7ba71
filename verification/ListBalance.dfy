/**
  The balance of the list's memory: no node is lost, and no thread keeps more retired
  nodes than it may.
 */
module ListBalance {
  import opened ListInvariant
  import opened ListMachine
  import opened ListReclamation
  import opened ListShape
  import opened Sets

  // ---------------------------------------------------------------- nothing is lost

  /** A node that was never linked. */
  ghost predicate Unborn(h: Heap, l: set<Ptr>, n: Ptr) {
    n in h && n != HEAD && n !in l && !h[n].mark
  }

  ghost predicate OwnedBy(s: State, n: Ptr) {
    exists t :: 0 <= t < |s.threads| && Owns(s.threads[t]) && s.threads[t].newNode == n
  }

  /** A node that was never linked belongs to a call of insert or has been freed. */
  ghost predicate NewKept(s: State) {
    forall n {:trigger OwnedBy(s, n)} :: Unborn(s.heap, Linked(s.heap), n) ==> n in s.freed || OwnedBy(s, n)
  }

  /** The insertion ends with its node linked or deleted, and in no other way. */
  lemma OwnsOn(cfg: Config, s: State, e: Event)
    requires Inv(cfg, s) && Enabled(cfg, s, e) && Owns(s.threads[e.t])
    ensures var th, th' := s.threads[e.t], Step(cfg, s, e).threads[e.t];
            || (Owns(th') && th'.newNode == th.newNode)
            || (e.Go? && th.pc == DelNew)
            || (e.Go? && th.pc == CasInsert && CasHolds(s, th))
  {
    hide Linked, Abs, HeapOk, Load, CasHolds;
    assert ThreadOk(cfg, s.heap, Linked(s.heap), s.threads[e.t]);
  }

  /** The cells that are new or unlinked after a step. */
  lemma UnbornFrom(cfg: Config, s: State, e: Event, n: Ptr)
    requires Inv(cfg, s) && Enabled(cfg, s, e)
    requires Unborn(Step(cfg, s, e).heap, Linked(Step(cfg, s, e).heap), n)
    ensures Unborn(s.heap, Linked(s.heap), n) || (e.Call? && e.op.kind == Insert && n == s.alloc)
    ensures e.Go? && s.threads[e.t].pc == CasInsert && CasHolds(s, s.threads[e.t]) ==> n != s.threads[e.t].newNode
  {
    hide Linked, HeapOk, Abs;
    var s' := Step(cfg, s, e);
    StepGrows(cfg, s, e);
    CellsFrom(cfg, s, e);
    if e.Go? && s.threads[e.t].pc == CasInsert && CasHolds(s, s.threads[e.t]) {
      InsertFits(cfg, s, e.t);
      LinkNodeAbs(s.heap, Linked(s.heap), s.threads[e.t].prev.cell, s.threads[e.t].newNode);
    }
  }

  lemma CellsFrom(cfg: Config, s: State, e: Event)
    requires Inv(cfg, s) && Enabled(cfg, s, e)
    ensures forall n :: n in Step(cfg, s, e).heap ==> n in s.heap || (e.Call? && e.op.kind == Insert && n == s.alloc)
  {
    hide Linked, HeapOk, Abs;
    if !e.Call? && !Writes(s.threads[e.t].pc) {
      QuietFrame(cfg, s, e);
    } else {
      assert ThreadOk(cfg, s.heap, Linked(s.heap), s.threads[e.t]);
    }
  }

  lemma NewKeptStep(cfg: Config, s: State, e: Event)
    requires Inv(cfg, s) && Enabled(cfg, s, e) && NewKept(s)
    ensures NewKept(Step(cfg, s, e))
  {
    hide Linked, HeapOk, Inv, Unborn, Step;
    var s' := Step(cfg, s, e);
    CustodyFrame(cfg, s, e);
    FreedIs(cfg, s, e);
    forall n | Unborn(s'.heap, Linked(s'.heap), n)
      ensures n in s'.freed || OwnedBy(s', n)
    {
      UnbornFrom(cfg, s, e, n);
      if e.Call? && e.op.kind == Insert && n == s.alloc {
        CallOwns(cfg, s, e);
      } else if n !in s.freed {
        assert OwnedBy(s, n);
        var t :| 0 <= t < |s.threads| && Owns(s.threads[t]) && s.threads[t].newNode == n;
        if t == e.t {
          OwnsOn(cfg, s, e);
        } else {
          assert s'.threads[t] == s.threads[t];
        }
      }
    }
  }

  lemma CallOwns(cfg: Config, s: State, e: Event)
    requires Enabled(cfg, s, e) && e.Call? && e.op.kind == Insert
    ensures Owns(Step(cfg, s, e).threads[e.t]) && Step(cfg, s, e).threads[e.t].newNode == s.alloc
  {
    hide Legal;
  }

  lemma {:induction false} NewKeptRun(cfg: Config, r: Run, i: nat)
    requires ValidRun(cfg, r) && i < |r.states|
    ensures NewKept(r.states[i])
    decreases i
  {
    hide Inv, Step, Enabled;
    if i > 0 {
      NewKeptRun(cfg, r, i - 1);
      InvRun(cfg, r, i - 1);
      assert Follows(cfg, r, i - 1);
      NewKeptStep(cfg, r.states[i - 1], r.events[i - 1]);
    }
  }

  /** No node is lost: at every moment of every run each node that was ever allocated is
      linked, or freed, or in some thread's hands. */
  lemma NothingLost(cfg: Config, r: Run, i: nat, n: Ptr)
    requires ValidRun(cfg, r) && i < |r.states| && n in r.states[i].heap && n != HEAD
    ensures var s := r.states[i];
            n in Linked(s.heap) || n in s.freed || Held(s, n) || OwnedBy(s, n)
  {
    hide Linked;
    CustodyRun(cfg, r, i);
    NewKeptRun(cfg, r, i);
    var s := r.states[i];
    if n !in Linked(s.heap) && n !in s.freed {
      assert s.heap[n].mark ==> Gone(s.heap, Linked(s.heap), n);
      assert !s.heap[n].mark ==> Unborn(s.heap, Linked(s.heap), n);
    }
  }

  /** With all threads between calls, what is neither linked nor freed is on a retired list. */
  lemma NothingLostAtRest(cfg: Config, r: Run, i: nat, n: Ptr)
    requires ValidRun(cfg, r) && i < |r.states| && n in r.states[i].heap && n != HEAD
    requires forall t :: 0 <= t < |r.states[i].threads| ==> r.states[i].threads[t].pc == Idle
    ensures var s := r.states[i];
            n in Linked(s.heap) || n in s.freed || exists t :: 0 <= t < |s.threads| && n in s.threads[t].retired
  {
    hide Linked;
    NothingLost(cfg, r, i, n);
  }

  // -------------------------------------------------------------- the retired lists

  function Max(a: nat, b: nat): nat { if a < b then b else a }

  /** A scan is under way only when the list was too long, and leaves no more than the
      slots there are; elsewhere the list is within its bounds. */
  ghost predicate Bounded(cfg: Config, threads: nat, th: Thread) {
    && (th.pc == Scan ==> |th.retired| > cfg.maxRetired && |th.active| <= th.slot <= 2 * threads)
    && (th.pc == Sweep ==> |th.active| <= 2 * threads && th.retired <= th.active + th.todo)
    && (th.pc !in {Scan, Sweep} ==> |th.retired| <= Max(cfg.maxRetired, 2 * threads))
  }

  ghost predicate AllBounded(cfg: Config, s: State) {
    forall t {:trigger s.threads[t]} :: 0 <= t < |s.threads| ==> Bounded(cfg, |s.threads|, s.threads[t])
  }

  lemma BoundedGo(cfg: Config, s: State, t: nat)
    requires t < |s.threads| && s.threads[t].pc !in {Idle, Retire, Scan, Sweep}
    requires Bounded(cfg, |s.threads|, s.threads[t])
    ensures Bounded(cfg, |s.threads|, StepGo(cfg, s, t).threads[t])
  {
    hide Load, CasHolds;
    GoOutside(cfg, s, t);
  }

  lemma BoundedRetire(cfg: Config, s: State, t: nat)
    requires t < |s.threads| && s.threads[t].pc == Retire && Bounded(cfg, |s.threads|, s.threads[t])
    ensures Bounded(cfg, |s.threads|, StepGo(cfg, s, t).threads[t])
  {
    var th := s.threads[t];
    AfterRetireLeaves(th.(retired := th.retired + {th.cur}));
    hide AfterRetire;
  }

  lemma BoundedScan(cfg: Config, s: State, t: nat)
    requires t < |s.threads| && s.threads[t].pc == Scan && Bounded(cfg, |s.threads|, s.threads[t])
    ensures Bounded(cfg, |s.threads|, StepGo(cfg, s, t).threads[t])
  {
  }

  lemma BoundedSweep(cfg: Config, s: State, e: Event)
    requires Enabled(cfg, s, e) && !e.Call? && s.threads[e.t].pc == Sweep
    requires Bounded(cfg, |s.threads|, s.threads[e.t])
    ensures Bounded(cfg, |s.threads|, Step(cfg, s, e).threads[e.t])
  {
    var th := s.threads[e.t];
    if e.Go? {
      AfterRetireLeaves(th);
      hide AfterRetire;
      SubsetSize(th.retired, th.active);
    }
  }

  lemma BoundedStep(cfg: Config, s: State, e: Event)
    requires Enabled(cfg, s, e) && AllBounded(cfg, s)
    ensures AllBounded(cfg, Step(cfg, s, e))
  {
    hide Bounded, Linked, StepGo;
    var s' := Step(cfg, s, e);
    CustodyFrame(cfg, s, e);
    assert Bounded(cfg, |s.threads|, s.threads[e.t]);
    assert Bounded(cfg, |s.threads|, s'.threads[e.t]) by {
      match e
      case Call(t, op) => BoundedCall(cfg, s, t, op);
      case Drop(_, _) => BoundedSweep(cfg, s, e);
      case Go(t) =>
        match s.threads[t].pc
        case Retire => BoundedRetire(cfg, s, t);
        case Scan => BoundedScan(cfg, s, t);
        case Sweep => BoundedSweep(cfg, s, e);
        case _ => BoundedGo(cfg, s, t);
    }
    forall t | 0 <= t < |s'.threads|
      ensures Bounded(cfg, |s'.threads|, s'.threads[t])
    {
      if t != e.t {
        assert s'.threads[t] == s.threads[t];
      }
    }
  }

  lemma BoundedCall(cfg: Config, s: State, t: nat, op: Op)
    requires t < |s.threads| && s.threads[t].pc == Idle && Bounded(cfg, |s.threads|, s.threads[t])
    ensures Bounded(cfg, |s.threads|, StepCall(s, t, op).threads[t])
  {
  }

  lemma BoundedInit(cfg: Config, s: State)
    requires Init(cfg, s)
    ensures AllBounded(cfg, s)
  {
  }

  lemma {:induction false} BoundedRun(cfg: Config, r: Run, i: nat)
    requires ValidRun(cfg, r) && i < |r.states|
    ensures AllBounded(cfg, r.states[i])
    decreases i
  {
    hide AllBounded, Step, Enabled;
    if i == 0 {
      BoundedInit(cfg, r.states[0]);
    } else {
      BoundedRun(cfg, r, i - 1);
      assert Follows(cfg, r, i - 1);
      BoundedStep(cfg, r.states[i - 1], r.events[i - 1]);
    }
  }

  /** In every run a thread outside a scan has at most `maxRetired` nodes on its retired
      list, or at most as many as there are slots, and it is in a scan only after the
      list had grown beyond `maxRetired`. */
  lemma RetiredBound(cfg: Config, r: Run, i: nat, t: nat)
    requires ValidRun(cfg, r) && i < |r.states| && t < |r.states[i].threads|
    ensures var s := r.states[i]; var th := s.threads[t];
            && (th.pc == Scan ==> |th.retired| > cfg.maxRetired)
            && (th.pc !in {Scan, Sweep} ==> |th.retired| <= cfg.maxRetired || |th.retired| <= 2 * |s.threads|)
  {
    BoundedRun(cfg, r, i);
  }
}
