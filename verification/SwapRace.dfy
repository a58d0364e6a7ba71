/**
  The two-store slot exchange of lookupInternal, left as two stores, is not safe:
  with two threads or more there is a run, for any retirement threshold, in which
  a thread uses a node after it has been freed.

  Thread 1 stops between the two stores, so the node that holds its *prev is in no
  slot; thread 0 removes that node and keeps inserting and removing until a scan
  frees it; thread 1 resumes and compares-and-swaps into the freed node.
 */
module SwapRace {
  import opened ListMachine
  import opened ListReclamation

  ghost predicate Reached(cfg: Config, s: State) {
    exists r :: ValidRun(cfg, r) && r.states[|r.states| - 1] == s
  }

  lemma Take(cfg: Config, s: State, e: Event) returns (s': State)
    requires Reached(cfg, s) && Enabled(cfg, s, e)
    ensures s' == Step(cfg, s, e) && Reached(cfg, s')
  {
    s' := Step(cfg, s, e);
    var r :| ValidRun(cfg, r) && r.states[|r.states| - 1] == s;
    var r' := Run(r.states + [s'], r.events + [e]);
    forall i | 0 <= i < |r'.events|
      ensures Follows(cfg, r', i)
    {
      if i < |r.events| {
        assert Follows(cfg, r, i);
      }
    }
    assert ValidRun(cfg, r');
  }

  const A: Ptr := 2   // the node thread 1 is moving past
  const B: Ptr := 3   // the node thread 1 wants to insert

  /** Every slot but thread 0's is empty, and so is thread 0's second one. */
  ghost predicate SlotsClear(s: State) {
    && (forall u {:trigger s.threads[u]} :: 1 <= u < |s.threads| ==>
        s.threads[u].hp0 == NULL && s.threads[u].hp1 == NULL)
    && (0 < |s.threads| ==> s.threads[0].hp1 == NULL)
  }

  /** Thread 1 inside insert(k + 1), between the two stores of the exchange. */
  ghost predicate Stuck(th: Thread, k: int) {
    && th.pc == Swap2 && th.op == Op(Insert, k + 1, 0, NULL) && th.result == Pending
    && th.prev == At(A) && th.temp == A && th.next == NULL && th.newNode == B
  }

  ghost predicate Base(cfg: Config, s: State) {
    && 2 <= |s.threads| == cfg.threads && Reached(cfg, s) && SlotsClear(s)
    && HEAD in s.heap && s.heap[HEAD].mark == false
  }

  /** The list is empty, or holds the one node n with key k. */
  ghost predicate Empty(s: State) {
    HEAD in s.heap && s.heap[HEAD].next == NULL
  }

  ghost predicate Only(s: State, n: Ptr, k: int) {
    && HEAD in s.heap && s.heap[HEAD].next == n && n != NULL && n != HEAD
    && n in s.heap && s.heap[n] == Node(k, 0, NULL, false)
  }

  /** What a stretch of thread 0's steps leaves alone. */
  ghost predicate Rest(s: State, s': State) {
    && |s'.threads| == |s.threads|
    && (forall u {:trigger s'.threads[u]} :: 1 <= u < |s.threads| ==> s'.threads[u] == s.threads[u])
  }

  // --------------------------------------------------------------- thread 0 inserts

  lemma InsertOne(cfg: Config, s: State, k: int) returns (s': State)
    requires Base(cfg, s) && Empty(s) && s.threads[0].pc == Idle && s.alloc > HEAD
    ensures Base(cfg, s') && Only(s', s.alloc, k) && s'.alloc == s.alloc + 1 && Rest(s, s')
    ensures s'.threads[0].pc == Idle && s'.threads[0].retired == s.threads[0].retired && s'.freed == s.freed
  {
    var s1 := Take(cfg, s, Call(0, Op(Insert, k, 0, NULL)));
    var s2 := Take(cfg, s1, Go(0));
    s' := LinkOne(cfg, s2, s.alloc, k);
  }

  /** The end of insert(k) on an empty list. */
  lemma LinkOne(cfg: Config, s: State, n: Ptr, k: int) returns (s': State)
    requires Base(cfg, s) && Empty(s) && n in s.heap && n > HEAD && s.heap[n] == Node(k, 0, NULL, false)
    requires var th := s.threads[0];
             th.pc == LinkNew && th.prev == At(HEAD) && th.cur == NULL && th.newNode == n && th.op.kind == Insert
    ensures Base(cfg, s') && Only(s', n, k) && s'.alloc == s.alloc && Rest(s, s')
    ensures s'.threads[0].pc == Idle && s'.threads[0].retired == s.threads[0].retired && s'.freed == s.freed
  {
    var s1 := Take(cfg, s, Go(0));
    var s2 := Take(cfg, s1, Go(0));
    s' := Take(cfg, s2, Go(0));
  }

  // --------------------------------------------------------------- thread 0 removes

  /** Thread 0 inside remove(k), about to retire n, which its first slot still holds. */
  ghost predicate Retiring(s: State, n: Ptr) {
    && 0 < |s.threads| && n != NULL && s.threads[0].op.kind == Remove
    && s.threads[0].cur == n && s.threads[0].hp0 == n && s.threads[0].after == Finish
  }

  lemma FindOne(cfg: Config, s: State, n: Ptr, k: int) returns (s': State)
    requires Base(cfg, s) && Only(s, n, k) && s.threads[0].pc == Idle && k !in cfg.permanent
    ensures Base(cfg, s') && Only(s', n, k) && Rest(s, s') && s'.alloc == s.alloc && s'.freed == s.freed
    ensures var th := s'.threads[0];
            && th.pc == CasMark && th.op == Op(Remove, k, 0, NULL)
            && th.prev == At(HEAD) && th.cur == n && th.next == NULL
            && th.hp0 == n && th.retired == s.threads[0].retired
  {
    var s1 := Take(cfg, s, Call(0, Op(Remove, k, 0, NULL)));
    var s2 := Take(cfg, s1, Go(0));
    var s3 := Take(cfg, s2, Go(0));
    assert s3.threads[0].pc == Check1 && s3.threads[0].prev == At(HEAD) && s3.threads[0].cur == n;
    s' := FoundOne(cfg, s3, n, k);
  }

  /** remove(k) has published the one node and reads it. */
  lemma FoundOne(cfg: Config, s: State, n: Ptr, k: int) returns (s': State)
    requires Base(cfg, s) && Only(s, n, k)
    requires var th := s.threads[0];
             && th.pc == Check1 && th.op == Op(Remove, k, 0, NULL) && th.result == Pending
             && th.prev == At(HEAD) && th.cur == n && th.hp0 == n
    ensures Base(cfg, s') && Only(s', n, k) && Rest(s, s') && s'.alloc == s.alloc && s'.freed == s.freed
    ensures var th := s'.threads[0];
            && th.pc == CasMark && th.op == Op(Remove, k, 0, NULL)
            && th.prev == At(HEAD) && th.cur == n && th.next == NULL
            && th.hp0 == n && th.retired == s.threads[0].retired
  {
    var s4 := Take(cfg, s, Go(0));
    var s5 := Take(cfg, s4, Go(0));
    assert s5.threads[0].pc == ReadKey && s5.threads[0].next == NULL;
    var s6 := Take(cfg, s5, Go(0));
    s' := Take(cfg, s6, Go(0));
  }

  lemma UnlinkOne(cfg: Config, s: State, n: Ptr, k: int) returns (s': State)
    requires Base(cfg, s) && Only(s, n, k) && s.threads[0].pc == Idle && k !in cfg.permanent
    ensures Base(cfg, s') && Empty(s') && Rest(s, s') && s'.alloc == s.alloc && s'.freed == s.freed
    ensures s'.threads[0].pc == Retire && Retiring(s', n) && s'.threads[0].retired == s.threads[0].retired
  {
    var s1 := FindOne(cfg, s, n, k);
    var s2 := Take(cfg, s1, Go(0));
    s' := Take(cfg, s2, Go(0));
  }

  lemma ScanAll(cfg: Config, s: State, n: Ptr) returns (s': State)
    requires Base(cfg, s) && Empty(s) && s.threads[0].pc == Scan && Retiring(s, n) &&
             s.threads[0].slot <= 2 * |s.threads|
    requires s.threads[0].active == if s.threads[0].slot == 0 then {} else {n}
    ensures Base(cfg, s') && Empty(s') && Rest(s, s') && s'.alloc == s.alloc && s'.freed == s.freed
    ensures s'.threads[0].pc == Sweep && Retiring(s', n) && s'.threads[0].retired == s.threads[0].retired
    ensures s'.threads[0].active == {n} && s'.threads[0].todo == s'.threads[0].retired
    decreases 2 * |s.threads| - s.threads[0].slot
  {
    var s1 := Take(cfg, s, Go(0));
    if s.threads[0].slot < 2 * |s.threads| {
      assert SlotAt(s, s.threads[0].slot) == if s.threads[0].slot == 0 then n else NULL;
      s' := ScanAll(cfg, s1, n);
    } else {
      s' := s1;
    }
  }

  lemma SweepAll(cfg: Config, s: State, n: Ptr) returns (s': State)
    requires Base(cfg, s) && Empty(s) && s.threads[0].pc == Sweep && Retiring(s, n) && s.threads[0].active == {n}
    requires s.threads[0].todo <= s.threads[0].retired
    ensures Base(cfg, s') && Empty(s') && Rest(s, s') && s'.alloc == s.alloc && s'.threads[0].pc == Idle
    ensures s'.threads[0].retired == s.threads[0].retired - (s.threads[0].todo - {n})
    ensures s'.freed == s.freed + (s.threads[0].todo - {n})
    decreases s.threads[0].todo
  {
    if p :| p in s.threads[0].todo {
      var s1 := SweepOne(cfg, s, n, p);
      s' := SweepAll(cfg, s1, n);
    } else {
      s' := SweepDone(cfg, s, n);
    }
  }

  /** One retired node is looked at: kept if it is n, and freed otherwise. */
  lemma SweepOne(cfg: Config, s: State, n: Ptr, p: Ptr) returns (s': State)
    requires Base(cfg, s) && Empty(s) && s.threads[0].pc == Sweep && Retiring(s, n) && s.threads[0].active == {n}
    requires p in s.threads[0].todo
    ensures Base(cfg, s') && Empty(s') && Rest(s, s') && s'.alloc == s.alloc && s'.threads[0].pc == Sweep
    ensures Retiring(s', n) && s'.threads[0].active == {n} && s'.threads[0].todo == s.threads[0].todo - {p}
    ensures s'.threads[0].retired == s.threads[0].retired - ({p} - {n}) && s'.freed == s.freed + ({p} - {n})
  {
    s' := Take(cfg, s, Drop(0, p));
  }

  lemma SweepDone(cfg: Config, s: State, n: Ptr) returns (s': State)
    requires Base(cfg, s) && Empty(s) && s.threads[0].pc == Sweep && Retiring(s, n) && s.threads[0].todo == {}
    ensures Base(cfg, s') && Empty(s') && Rest(s, s') && s'.alloc == s.alloc && s'.threads[0].pc == Idle
    ensures s'.threads[0].retired == s.threads[0].retired && s'.freed == s.freed
  {
    var s1 := Take(cfg, s, Go(0));
    s' := Take(cfg, s1, Go(0));
  }

  /** retireNode's first step in thread 0: n joins the list, and a list over the threshold is scanned. */
  lemma RetirePut(cfg: Config, s: State, n: Ptr) returns (s': State)
    requires Base(cfg, s) && Empty(s) && s.threads[0].pc == Retire && Retiring(s, n)
    ensures Base(cfg, s') && Empty(s') && Rest(s, s') && s'.alloc == s.alloc && s'.freed == s.freed
    ensures Retiring(s', n)
    ensures var l := s.threads[0].retired + {n};
            && s'.threads[0].retired == l
            && (if |l| <= cfg.maxRetired then s'.threads[0].pc == Return
                else s'.threads[0].pc == Scan && s'.threads[0].slot == 0 && s'.threads[0].active == {})
  {
    s' := Take(cfg, s, Go(0));
  }

  /** retireNode with n in thread 0's own slot: below the threshold n joins the list;
      above it everything else on the list is freed. */
  lemma RetireOne(cfg: Config, s: State, n: Ptr) returns (s': State)
    requires Base(cfg, s) && Empty(s) && s.threads[0].pc == Retire && Retiring(s, n)
    ensures Base(cfg, s') && Empty(s') && Rest(s, s') && s'.alloc == s.alloc && s'.threads[0].pc == Idle
    ensures var l := s.threads[0].retired + {n};
            if |l| <= cfg.maxRetired then s'.threads[0].retired == l
            else s'.threads[0].retired == {n} && s'.freed == s.freed + (l - {n})
  {
    var s1 := RetirePut(cfg, s, n);
    var l := s.threads[0].retired + {n};
    if |l| <= cfg.maxRetired {
      s' := Take(cfg, s1, Go(0));
    } else {
      s' := RetireScan(cfg, s1, n, l);
    }
  }

  lemma RetireScan(cfg: Config, s: State, n: Ptr, l: set<Ptr>) returns (s': State)
    requires Base(cfg, s) && Empty(s) && s.threads[0].pc == Scan && Retiring(s, n)
    requires s.threads[0].slot == 0 && s.threads[0].active == {} && s.threads[0].retired == l && n in l
    ensures Base(cfg, s') && Empty(s') && Rest(s, s') && s'.alloc == s.alloc && s'.threads[0].pc == Idle
    ensures s'.threads[0].retired == {n} && s'.freed == s.freed + (l - {n})
  {
    var s2 := ScanAll(cfg, s, n);
    s' := SweepAll(cfg, s2, n);
    assert l - (l - {n}) == {n};
  }

  // ------------------------------------------------------------------ the whole run

  /** Thread 1 stopped in the exchange on A; A removed and retired by thread 0. */
  ghost predicate Staged(cfg: Config, s: State, k: int) {
    && Base(cfg, s) && Empty(s) && s.threads[0].pc == Idle && Stuck(s.threads[1], k)
    && s.alloc > B && A in s.threads[0].retired
    && (forall p :: p in s.threads[0].retired ==> p < s.alloc)
  }

  /** Inserting and removing k once more either lengthens the retired list or frees A. */
  lemma OneMore(cfg: Config, s: State, k: int) returns (s': State)
    requires Staged(cfg, s, k) && k !in cfg.permanent
    ensures Base(cfg, s') && Stuck(s'.threads[1], k)
    ensures A in s'.freed ||
            (Staged(cfg, s', k) && |s'.threads[0].retired| == |s.threads[0].retired| + 1 <= cfg.maxRetired)
  {
    var n := s.alloc;
    var s1 := InsertOne(cfg, s, k);
    var s2 := UnlinkOne(cfg, s1, n, k);
    s' := RetireOne(cfg, s2, n);
  }

  lemma FreeA(cfg: Config, s: State, k: int) returns (s': State)
    requires Staged(cfg, s, k) && k !in cfg.permanent && |s.threads[0].retired| <= cfg.maxRetired + 1
    ensures Base(cfg, s') && Stuck(s'.threads[1], k) && A in s'.freed
    decreases cfg.maxRetired + 1 - |s.threads[0].retired|
  {
    s' := OneMore(cfg, s, k);
    if A !in s'.freed {
      s' := FreeA(cfg, s', k);
    }
  }

  lemma Start(cfg: Config) returns (s: State)
    requires 2 <= cfg.threads
    ensures Base(cfg, s) && Empty(s) && s.alloc == A && s.freed == {}
    ensures s.threads[0] == IdleThread && s.threads[1] == IdleThread
  {
    s := State(map[HEAD := Node(0, 0, NULL, false)], seq(cfg.threads, _ => IdleThread), {}, A);
    var r := Run([s], []);
    assert ValidRun(cfg, r) && r.states[|r.states| - 1] == s;
  }

  /** Thread 1 walks up to the exchange on A and makes the first of its two stores. */
  lemma Walk(cfg: Config, s: State, k: int) returns (s': State)
    requires !cfg.atomicSwap && Base(cfg, s) && Only(s, A, k) && s.alloc == B && s.threads[1].pc == Idle
    ensures Base(cfg, s') && Only(s', A, k) && s'.alloc == B + 1 && Stuck(s'.threads[1], k)
    ensures s'.threads[0] == s.threads[0]
  {
    var s1 := Take(cfg, s, Call(1, Op(Insert, k + 1, 0, NULL)));
    var s2 := Take(cfg, s1, Go(1));
    var s3 := Take(cfg, s2, Go(1));
    assert s3.threads[1].pc == Check1 && s3.threads[1].prev == At(HEAD) && s3.threads[1].cur == A;
    s' := WalkRead(cfg, s3, k);
  }

  lemma WalkRead(cfg: Config, s: State, k: int) returns (s': State)
    requires !cfg.atomicSwap && Reached(cfg, s) && Only(s, A, k) && s.alloc == B + 1 && 2 <= |s.threads| == cfg.threads
    requires !s.heap[HEAD].mark && s.threads[0].hp1 == NULL
    requires forall u {:trigger s.threads[u]} :: 2 <= u < |s.threads| ==>
             s.threads[u].hp0 == NULL && s.threads[u].hp1 == NULL
    requires var th := s.threads[1];
             && th.pc == Check1 && th.op == Op(Insert, k + 1, 0, NULL) && th.result == Pending && th.prev == At(HEAD)
             && th.cur == A && th.newNode == B && th.hp0 == A && th.hp1 == NULL
    ensures Base(cfg, s') && Only(s', A, k) && s'.alloc == B + 1 && Stuck(s'.threads[1], k)
    ensures s'.threads[0] == s.threads[0]
  {
    var s4 := Take(cfg, s, Go(1));
    var s5 := Take(cfg, s4, Go(1));
    assert s5.threads[1].pc == ReadKey && s5.threads[1].next == NULL;
    s' := WalkOn(cfg, s5, k);
  }

  lemma WalkOn(cfg: Config, s: State, k: int) returns (s': State)
    requires !cfg.atomicSwap && Reached(cfg, s) && Only(s, A, k) && s.alloc == B + 1 && 2 <= |s.threads| == cfg.threads
    requires !s.heap[HEAD].mark && s.threads[0].hp1 == NULL
    requires forall u {:trigger s.threads[u]} :: 2 <= u < |s.threads| ==>
             s.threads[u].hp0 == NULL && s.threads[u].hp1 == NULL
    requires var th := s.threads[1];
             && th.pc == ReadKey && th.op == Op(Insert, k + 1, 0, NULL) && th.result == Pending && th.prev == At(HEAD)
             && th.cur == A && th.next == NULL && th.newNode == B && th.hp0 == A && th.hp1 == NULL
    ensures Base(cfg, s') && Only(s', A, k) && s'.alloc == B + 1 && Stuck(s'.threads[1], k)
    ensures s'.threads[0] == s.threads[0]
  {
    var s1 := Take(cfg, s, Go(1));
    var s2 := Take(cfg, s1, Go(1));
    s' := Take(cfg, s2, Go(1));
  }

  lemma Stage(cfg: Config, k: int) returns (s: State)
    requires !cfg.atomicSwap && 2 <= cfg.threads && k !in cfg.permanent
    ensures Staged(cfg, s, k) && |s.threads[0].retired| == 1
  {
    var s0 := Start(cfg);
    var s1 := InsertOne(cfg, s0, k);
    var s2 := Walk(cfg, s1, k);
    var s3 := UnlinkOne(cfg, s2, A, k);
    s := RetireOne(cfg, s3, A);
  }

  /** Thread 1 resumes and reaches the compare-and-swap on A's next field. */
  lemma Resume(cfg: Config, s: State, k: int) returns (s': State)
    requires Base(cfg, s) && Stuck(s.threads[1], k) && A in s.freed
    ensures Reached(cfg, s') && Enabled(cfg, s', Go(1)) && A in s'.freed && A in Touches(s', Go(1))
  {
    var s1 := Take(cfg, s, Go(1));
    s' := Take(cfg, s1, Go(1));
  }

  /** In every run every step keeps off freed cells. */
  ghost predicate AlwaysSafe(cfg: Config) {
    forall r, i: nat {:trigger Follows(cfg, r, i)} :: ValidRun(cfg, r) && i < |r.events| && Follows(cfg, r, i) ==>
      Touches(r.states[i], r.events[i]) !! r.states[i].freed
  }

  lemma UseAfterFree(cfg: Config, k: int)
    requires !cfg.atomicSwap && 2 <= cfg.threads && k !in cfg.permanent
    ensures !AlwaysSafe(cfg)
  {
    var s1 := Stage(cfg, k);
    var s2 := FreeA(cfg, s1, k);
    var s3 := Resume(cfg, s2, k);
    var r :| ValidRun(cfg, r) && r.states[|r.states| - 1] == s3;
    var r' := Run(r.states + [Step(cfg, s3, Go(1))], r.events + [Go(1)]);
    forall i | 0 <= i < |r'.events|
      ensures Follows(cfg, r', i)
    {
      if i < |r.events| {
        assert Follows(cfg, r, i);
      }
    }
    assert ValidRun(cfg, r') && Follows(cfg, r', |r.events|);
  }

  /** Exactly when reclamation is safe, as long as some key may be removed: the slot
      exchange is one step, or there is at most one thread. */
  lemma SafeExactlyWhen(cfg: Config, k: int)
    requires k !in cfg.permanent
    ensures AlwaysSafe(cfg) <==> cfg.atomicSwap || cfg.threads <= 1
  {
    if cfg.atomicSwap || cfg.threads <= 1 {
      forall r, i: nat | ValidRun(cfg, r) && i < |r.events| && Follows(cfg, r, i)
        ensures Touches(r.states[i], r.events[i]) !! r.states[i].freed
      {
        ReclamationSafety(cfg, r, i);
      }
    } else {
      UseAfterFree(cfg, k);
    }
  }
}
