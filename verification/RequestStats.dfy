/**
  The rolling-window request counter: ten circular slots per thread, and how close
  their sum comes to the true number of requests of the last second.
 */
module RequestStats {

  const SLOTS := 10

  /** uint32_t counters wrap. */
  const WRAP := 0x1_0000_0000

  /** A request as it happened: when, and which slot number it was counted in. */
  datatype Record = Record(tick: nat, slot: nat)

  /** Next position in the circular vector. */
  function IncPos(p: nat): nat { (p + 1) % SLOTS }

  /** The position that slot number q occupies. */
  function Pos(q: int): (p: nat)
    ensures p < SLOTS
  {
    q % SLOTS
  }

  /** Ten consecutive slots are at ten positions. */
  lemma PosDiffer(a: int, b: int)
    requires a < b < a + SLOTS
    ensures Pos(a) != Pos(b)
  {
  }

  lemma PosNext(q: int)
    ensures IncPos(Pos(q)) == Pos(q + 1)
    ensures Pos(q + SLOTS) == Pos(q)
  {
  }

  /** Position of a tick. */
  function PosForTick(t: nat, ticksPerSlot: nat): nat
    requires ticksPerSlot > 0
  {
    t / ticksPerSlot % SLOTS
  }

  /** Start of a tick's slot. */
  function RoundTick(t: nat, ticksPerSlot: nat): nat
    requires ticksPerSlot > 0
  {
    assert t % ticksPerSlot <= t by { DivLaw(t, ticksPerSlot); }
    t - t % ticksPerSlot
  }

  // ------------------------------------------------------------------ arithmetic

  lemma DivLaw(t: nat, s: nat)
    requires s > 0
    ensures t / s * s <= t < t / s * s + s
    ensures t % s == t - t / s * s
  {
  }

  lemma MulMono(a: int, b: int, s: nat)
    requires a <= b
    ensures a * s <= b * s
  {
  }

  /** Comparing multiples of s compares the multipliers. */
  lemma MulCancel(a: int, b: int, s: nat)
    requires a * s < b * s
    ensures a < b
  {
    if b <= a {
      MulMono(b, a, s);
    }
  }

  lemma MulDistr(a: int, b: int, s: int)
    ensures (a + b) * s == a * s + b * s
  {
  }

  // ---------------------------------------------------------- counting the records

  /** How many records were counted in slot number q. */
  function InSlot(rs: seq<Record>, q: int): nat {
    if rs == [] then 0 else InSlot(rs[..|rs| - 1], q) + if rs[|rs| - 1].slot == q then 1 else 0
  }

  /** How many records were counted in slot numbers lo and up. */
  function FromSlot(rs: seq<Record>, lo: int): nat {
    if rs == [] then 0 else FromSlot(rs[..|rs| - 1], lo) + if rs[|rs| - 1].slot >= lo then 1 else 0
  }

  /** How many requests there were after tick t. */
  function After(rs: seq<Record>, t: int): nat {
    if rs == [] then 0 else After(rs[..|rs| - 1], t) + if rs[|rs| - 1].tick > t then 1 else 0
  }

  /** A record's tick lies in its slot, or at the very end of it. */
  ghost predicate Placed(r: Record, s: nat, top: int) {
    r.slot <= top && r.slot * s <= r.tick <= r.slot * s + s
  }

  ghost predicate AllPlaced(rs: seq<Record>, s: nat, top: int) {
    forall i {:trigger rs[i]} :: 0 <= i < |rs| ==> Placed(rs[i], s, top)
  }

  lemma PlacedUp(rs: seq<Record>, s: nat, top: int, top': int)
    requires AllPlaced(rs, s, top) && top <= top'
    ensures AllPlaced(rs, s, top')
  {
    forall i | 0 <= i < |rs|
      ensures Placed(rs[i], s, top')
    {
      assert Placed(rs[i], s, top);
    }
  }

  lemma PlacedMore(rs: seq<Record>, r: Record, s: nat, top: int)
    requires AllPlaced(rs, s, top) && Placed(r, s, top)
    ensures AllPlaced(rs + [r], s, top)
  {
    forall i | 0 <= i < |rs| + 1
      ensures Placed((rs + [r])[i], s, top)
    {
      if i < |rs| {
        assert Placed(rs[i], s, top);
      }
    }
  }

  lemma InSlotMore(rs: seq<Record>, r: Record, q: int)
    ensures InSlot(rs + [r], q) == InSlot(rs, q) + if r.slot == q then 1 else 0
  {
    assert (rs + [r])[..|rs|] == rs;
  }

  /** The value of a uint32_t. */
  function Wrap(x: int): (r: nat)
    ensures r < 0x1_0000_0000 && (x - r) % 0x1_0000_0000 == 0
    ensures 0 <= x < 0x1_0000_0000 ==> r == x
  {
    x % WRAP
  }

  lemma WrapSum(x: int, c: int)
    ensures Wrap(Wrap(x) + c) == Wrap(x + c) && Wrap(Wrap(x) + Wrap(c)) == Wrap(x + c)
  {
  }

  lemma WrapSame(x: int)
    ensures 0 <= x < WRAP ==> Wrap(x) == x
  {
  }

  lemma {:induction false} NoneAbove(rs: seq<Record>, s: nat, top: int, q: int)
    requires AllPlaced(rs, s, top) && q > top
    ensures InSlot(rs, q) == 0 && FromSlot(rs, q) == 0
  {
    if rs != [] {
      NoneAbove(rs[..|rs| - 1], s, top, q);
    }
  }

  lemma {:induction false} FromOne(rs: seq<Record>, lo: int)
    ensures FromSlot(rs, lo) == InSlot(rs, lo) + FromSlot(rs, lo + 1)
  {
    if rs != [] {
      FromOne(rs[..|rs| - 1], lo);
    }
  }

  /** Slots n-9 and up hold every request after now-9S and none before now-10S, when
      now lies in slot n. */
  lemma {:induction false} WindowBound(rs: seq<Record>, s: nat, top: int, n: int, now: nat)
    requires AllPlaced(rs, s, top) && n * s <= now < n * s + s
    ensures After(rs, now - 9 * s) <= FromSlot(rs, n - 9) <= After(rs, now - 10 * s)
  {
    if rs != [] {
      var r := rs[|rs| - 1];
      WindowBound(rs[..|rs| - 1], s, top, n, now);
      assert Placed(r, s, top);
      MulDistr(n, -9, s);
      if r.tick > now - 9 * s {
        MulDistr(r.slot, 1, s);
        MulCancel(n - 9, r.slot + 1, s);
      }
      if r.slot >= n - 9 {
        MulMono(n - 9, r.slot, s);
      }
    }
  }

  /** All that came after the base slot's start is in the slots from lo on, and nothing
      else is exactly if those hold nothing older. */
  lemma {:induction false} AfterVersusSlots(rs: seq<Record>, s: nat, top: nat, lo: int)
    requires AllPlaced(rs, s, top) && lo <= top
    ensures After(rs, top * s) <= FromSlot(rs, lo)
    ensures After(rs, top * s) == FromSlot(rs, lo) <==>
            forall i {:trigger rs[i]} :: 0 <= i < |rs| && rs[i].slot >= lo ==> rs[i].tick > top * s
  {
    if rs != [] {
      var n := |rs| - 1;
      var init, r := rs[..n], rs[n];
      AfterVersusSlots(init, s, top, lo);
      assert Placed(r, s, top);
      if r.tick > top * s {
        MulDistr(r.slot, 1, s);
        MulCancel(top, r.slot + 1, s);
      }
      assert forall i :: 0 <= i < n ==> init[i] == rs[i];
    }
  }

  lemma {:induction false} InSlotAtMost(rs: seq<Record>, q: int)
    ensures InSlot(rs, q) <= |rs|
    ensures InSlot(rs, q) == 0 <==> forall i :: 0 <= i < |rs| ==> rs[i].slot != q
  {
    if rs != [] {
      var n := |rs| - 1;
      InSlotAtMost(rs[..n], q);
      assert forall i :: 0 <= i < n ==> rs[..n][i] == rs[i];
    }
  }

  /** The last ten slots hold nothing as old as the base's start. */
  ghost predicate NothingOld(rs: seq<Record>, s: nat, top: nat) {
    forall i {:trigger rs[i]} :: 0 <= i < |rs| && rs[i].slot >= top - SLOTS + 1 ==> rs[i].tick > top * s
  }

  ghost predicate EmptyBut(rs: seq<Record>, top: nat) {
    forall q {:trigger InSlot(rs, q)} :: top - SLOTS < q < top ==> InSlot(rs, q) == 0
  }

  ghost predicate NoneAt(rs: seq<Record>, tick: nat) {
    forall i {:trigger rs[i]} :: 0 <= i < |rs| ==> rs[i].tick != tick
  }

  /** That is so exactly if all but the base slot are empty and nothing happened at that
      very tick. */
  lemma EmptyBehind(rs: seq<Record>, s: nat, top: nat)
    requires AllPlaced(rs, s, top) && s > 0
    ensures NothingOld(rs, s, top) <==> EmptyBut(rs, top) && NoneAt(rs, top * s)
  {
    hide InSlot;
    if NothingOld(rs, s, top) {
      forall q {:trigger InSlot(rs, q)} | top - SLOTS < q < top
        ensures InSlot(rs, q) == 0
      {
        InSlotAtMost(rs, q);
        forall i | 0 <= i < |rs|
          ensures rs[i].slot != q
        {
          PlacedBelow(rs, i, s, top);
        }
      }
      forall i | 0 <= i < |rs|
        ensures rs[i].tick != top * s
      {
        PlacedBelow(rs, i, s, top);
      }
    }
    if EmptyBut(rs, top) && NoneAt(rs, top * s) {
      forall i | 0 <= i < |rs| && rs[i].slot >= top - SLOTS + 1
        ensures rs[i].tick > top * s
      {
        InSlotAtMost(rs, rs[i].slot);
        PlacedBelow(rs, i, s, top);
      }
    }
  }

  lemma PlacedBelow(rs: seq<Record>, i: nat, s: nat, top: nat)
    requires AllPlaced(rs, s, top) && i < |rs| && s > 0
    ensures rs[i].slot <= top
    ensures rs[i].slot == top ==> rs[i].tick >= top * s
    ensures rs[i].slot < top ==> rs[i].tick <= top * s
    ensures rs[i].slot < top - 1 ==> rs[i].tick < top * s
  {
    var r := rs[i];
    assert Placed(r, s, top);
    if r.slot < top {
      MulMono(r.slot + 1, top, s);
      MulDistr(r.slot, 1, s);
      if r.slot < top - 1 {
        MulMono(r.slot + 2, top, s);
        MulDistr(r.slot, 2, s);
      }
    }
  }

  /** Nothing was recorded after the last slot's end. */
  lemma {:induction false} NoneAfter(rs: seq<Record>, s: nat, top: int, t: int)
    requires AllPlaced(rs, s, top) && t >= top * s + s
    ensures After(rs, t) == 0
  {
    if rs != [] {
      var r := rs[|rs| - 1];
      NoneAfter(rs[..|rs| - 1], s, top, t);
      assert Placed(r, s, top);
      MulMono(r.slot, top, s);
    }
  }

  // ------------------------------------------------------------------ one thread

  class Counts {
    const ticksPerSlot: nat
    const val: array<nat>
    var basePos: nat
    var baseTick: nat
    /** Every request so far, the number of the base slot, and the latest tick seen. */
    ghost var records: seq<Record>
    ghost var base: nat
    ghost var lastTick: nat

    ghost predicate SlotOk(q: int)
      reads this, val
    {
      val.Length == SLOTS && val[Pos(q)] == Wrap(InSlot(records, q))
    }

    /** The array holds the counts of the last ten slots up to the base slot. */
    ghost predicate Valid()
      reads this, val
    {
      && ticksPerSlot > 0 && val.Length == SLOTS
      && baseTick == base * ticksPerSlot && basePos == Pos(base)
      && baseTick <= lastTick
      && AllPlaced(records, ticksPerSlot, base)
      && forall q {:trigger SlotOk(q)} :: base - SLOTS < q <= base ==> SlotOk(q)
    }

    constructor (ticksPerSlot: nat)
      requires ticksPerSlot > 0
      ensures Valid() && records == [] && lastTick == base == 0 && this.ticksPerSlot == ticksPerSlot
      ensures fresh(this) && fresh(val)
    {
      this.ticksPerSlot := ticksPerSlot;
      val := new nat[SLOTS](_ => 0);
      basePos, baseTick := 0, 0;
      records, base, lastTick := [], 0, 0;
    }

    /** One second. */
    function Second(): nat { SLOTS * ticksPerSlot }

    /** Forgets every slot. */
    method ZeroAll()
      requires val.Length == SLOTS
      modifies val
      ensures forall i :: 0 <= i < SLOTS ==> val[i] == 0
    {
      for j := 0 to SLOTS
        invariant forall i :: 0 <= i < j ==> val[i] == 0
      {
        val[j] := 0;
      }
    }

    /** Forgets the slots behind the base slot up to slot n. */
    method ZeroUpTo(newPos: nat, ghost n: nat)
      requires val.Length == SLOTS && basePos == Pos(base)
      requires base < n <= base + SLOTS && newPos == Pos(n)
      modifies val
      ensures forall q :: base < q <= n ==> val[Pos(q)] == 0
      ensures forall q :: n - SLOTS < q <= base ==> val[Pos(q)] == old(val[Pos(q)])
    {
      hide Pos, IncPos;
      var currPos := basePos;
      ghost var k := base;
      while true
        invariant currPos == Pos(k) && base <= k < n
        invariant forall q :: base < q <= k ==> val[Pos(q)] == 0
        invariant forall q :: k - SLOTS < q <= base ==> val[Pos(q)] == old(val[Pos(q)])
        decreases n - k
      {
        PosNext(k);
        currPos := IncPos(currPos);
        k := k + 1;
        val[currPos] := 0;
        forall q | k - SLOTS < q < k
          ensures Pos(q) != Pos(k)
        {
          PosDiffer(q, k);
        }
        if currPos == newPos { break; }
      }
      if k < n {
        PosDiffer(k, n);
      }
    }

    /** Counts a request completed at `now`. */
    method FinishedRequest(now: nat)
      requires Valid() && lastTick <= now
      modifies this, val
      ensures Valid() && lastTick == now
      ensures records == old(records) + [Record(now, base)]
      ensures base == if now > old(baseTick) + ticksPerSlot then now / ticksPerSlot else old(base)
    {
      hide Pos, InSlot, AllPlaced, Wrap;
      ghost var n := base;
      if now > baseTick + ticksPerSlot {
        var newPos := PosForTick(now, ticksPerSlot);
        n := now / ticksPerSlot;
        NewBase(now, n);
        if baseTick + Second() < now {
          ZeroAll();
        } else {
          ZeroUpTo(newPos, n);
        }
        forall q | n - SLOTS < q <= n
          ensures val[Pos(q)] == Wrap(InSlot(records, q))
        {
          if q > base {
            WrapSame(0);
            NoneAbove(records, ticksPerSlot, base, q);
          } else {
            assert old(SlotOk(q));
          }
        }
        PlacedUp(records, ticksPerSlot, base, n);
        basePos := newPos;
        baseTick := RoundTick(now, ticksPerSlot);
        base := n;
      } else {
        assert forall q {:trigger Pos(q)} :: base - SLOTS < q <= base ==> SlotOk(q);
      }
      CountOne(now);
    }

    /** Where a tick beyond the base slot belongs. */
    lemma NewBase(now: nat, n: nat)
      requires Valid() && now > baseTick + ticksPerSlot && n == now / ticksPerSlot
      ensures n > base && PosForTick(now, ticksPerSlot) == Pos(n)
      ensures RoundTick(now, ticksPerSlot) == n * ticksPerSlot <= now < n * ticksPerSlot + ticksPerSlot
      ensures baseTick + Second() < now ==> n >= base + SLOTS
      ensures baseTick + Second() >= now ==> n <= base + SLOTS
    {
      DivLaw(now, ticksPerSlot);
      MulDistr(base, SLOTS, ticksPerSlot);
      MulDistr(base, 1, ticksPerSlot);
      MulDistr(n, 1, ticksPerSlot);
      MulCancel(base + 1, n + 1, ticksPerSlot);
      if baseTick + Second() < now {
        MulCancel(base + SLOTS, n + 1, ticksPerSlot);
      } else if n > base + SLOTS {
        MulMono(base + SLOTS + 1, n, ticksPerSlot);
        MulDistr(base + SLOTS, 1, ticksPerSlot);
      }
    }

    /** Adds one to the base slot. */
    method CountOne(now: nat)
      requires ticksPerSlot > 0 && val.Length == SLOTS && baseTick == base * ticksPerSlot && basePos == Pos(base)
      requires baseTick <= now <= baseTick + ticksPerSlot && lastTick <= now
      requires AllPlaced(records, ticksPerSlot, base)
      requires forall q {:trigger Pos(q)} :: base - SLOTS < q <= base ==> val[Pos(q)] == Wrap(InSlot(records, q))
      modifies this`records, this`lastTick, val
      ensures Valid() && lastTick == now && records == old(records) + [Record(now, base)]
    {
      hide Pos, InSlot, AllPlaced, Wrap;
      var r := Record(now, base);
      PlacedMore(records, r, ticksPerSlot, base);
      WrapSum(InSlot(records, base), 1);
      val[basePos] := Wrap(val[basePos] + 1);
      records := records + [r];
      lastTick := now;
      forall q | base - SLOTS < q <= base
        ensures SlotOk(q)
      {
        InSlotMore(old(records), r, q);
        if q < base {
          PosDiffer(q, base);
        }
      }
    }

    /** The requests that getStats counts for this thread at `now`. */
    ghost function Seen(now: nat): nat
      requires Valid() && baseTick <= now
      reads this, val
    {
      if now - baseTick > Second() then 0
      else if now - baseTick == Second() then FromSlot(records, base - SLOTS + 1)
      else FromSlot(records, now / ticksPerSlot - SLOTS + 1)
    }

    /** Adds the slots from lo round to the base slot. */
    method SumSlots(acc: nat, pos: nat, ghost lo: int) returns (acc': nat)
      requires Valid() && base - SLOTS < lo <= base && pos == Pos(lo - 1)
      ensures acc' == Wrap(acc + FromSlot(records, lo))
    {
      hide Pos, IncPos, InSlot, FromSlot, AllPlaced, Wrap;
      acc' := Wrap(acc);
      var currPos := pos;
      ghost var k := lo - 1;
      while true
        invariant currPos == Pos(k) && lo - 1 <= k < base
        invariant acc' == Wrap(acc + FromSlot(records, lo) - FromSlot(records, k + 1))
        decreases base - k
      {
        PosNext(k);
        FromOne(records, k + 1);
        currPos := IncPos(currPos);
        k := k + 1;
        assert SlotOk(k);
        WrapSum(acc + FromSlot(records, lo) - FromSlot(records, k), InSlot(records, k));
        acc' := Wrap(acc' + val[currPos]);
        if currPos == basePos { break; }
      }
      if k < base {
        PosDiffer(k, base);
      }
      NoneAbove(records, ticksPerSlot, base, base + 1);
    }

    /** One thread's turn of getStats: the slots behind that of `now`, round to the base. */
    method AddTo(acc: nat, now: nat) returns (acc': nat)
      requires Valid() && baseTick <= now && acc < WRAP
      ensures acc' == Wrap(acc + Seen(now))
    {
      hide Pos, IncPos, InSlot, FromSlot, AllPlaced, Wrap, PosForTick;
      if now - baseTick > Second() {
        acc' := acc;
        WrapSame(acc);
      } else {
        ghost var n := now / ticksPerSlot;
        QuerySlot(now, n);
        ghost var lo := if now - baseTick == Second() then base - SLOTS + 1 else n - SLOTS + 1;
        PosNext(lo - 1);
        PosNext(base);
        acc' := SumSlots(acc, PosForTick(now, ticksPerSlot), lo);
      }
    }

    lemma QuerySlot(now: nat, n: nat)
      requires Valid() && baseTick <= now <= baseTick + Second() && n == now / ticksPerSlot
      ensures base <= n <= base + SLOTS && PosForTick(now, ticksPerSlot) == Pos(n)
      ensures n == base + SLOTS <==> now == baseTick + Second()
    {
      DivLaw(now, ticksPerSlot);
      MulDistr(base, SLOTS, ticksPerSlot);
      MulDistr(n, 1, ticksPerSlot);
      MulCancel(base, n + 1, ticksPerSlot);
      MulDistr(base + SLOTS, 1, ticksPerSlot);
      if n > base + SLOTS {
        MulMono(base + SLOTS + 1, n, ticksPerSlot);
      } else if now == baseTick + Second() {
        MulCancel(base + SLOTS, n + 1, ticksPerSlot);
      }
    }

    /** Off by less than a slot on either side, unless the base slot began exactly a
        second ago. */
    lemma SeenBound(now: nat)
      requires Valid() && lastTick <= now && baseTick + Second() != now
      ensures After(records, now - 9 * ticksPerSlot) <= Seen(now) <= After(records, now - 10 * ticksPerSlot)
    {
      DivLaw(now, ticksPerSlot);
      if now - baseTick > Second() {
        NoneAfter(records, ticksPerSlot, base, now - 9 * ticksPerSlot);
      } else {
        WindowBound(records, ticksPerSlot, base, now / ticksPerSlot, now);
      }
    }

    /** In that case all ten slots are counted, and the bound holds exactly if the nine
        slots behind the base are empty and no request fell on the base's first tick. */
    lemma SeenExact(now: nat)
      requires Valid() && lastTick <= now && baseTick + Second() == now
      ensures After(records, now - 9 * ticksPerSlot) <= Seen(now) <= After(records, now - 10 * ticksPerSlot) <==>
              EmptyBut(records, base) && NoneAt(records, baseTick)
    {
      NoneAfter(records, ticksPerSlot, base, now - 9 * ticksPerSlot);
      AfterVersusSlots(records, ticksPerSlot, base, base - SLOTS + 1);
      EmptyBehind(records, ticksPerSlot, base);
    }

    /** As long as no counter can have wrapped, a slot is empty exactly if its counter is 0. */
    lemma EmptySlot(q: int)
      requires Valid() && base - SLOTS < q <= base && |records| < 0x1_0000_0000
      ensures val[Pos(q)] == 0 <==> InSlot(records, q) == 0
    {
      assert SlotOk(q);
      InSlotAtMost(records, q);
      WrapSame(InSlot(records, q));
    }
  }

  // -------------------------------------------------------------- all the threads

  /** How many requests all the threads had after tick t. */
  ghost function AfterAll(cs: seq<Counts>, t: int): nat
    reads set c | c in cs
  {
    if cs == [] then 0 else AfterAll(cs[..|cs| - 1], t) + After(cs[|cs| - 1].records, t)
  }

  class RequestStats {
    const counts: seq<Counts>
    const ticksPerSlot: nat

    ghost predicate Valid()
      reads this, counts, set c | c in counts :: c.val
    {
      && (forall i :: 0 <= i < |counts| ==> counts[i].Valid() && counts[i].ticksPerSlot == ticksPerSlot)
      && (forall i, j :: 0 <= i < j < |counts| ==> counts[i] != counts[j] && counts[i].val != counts[j].val)
    }

    constructor (threads: nat, ticksPerSlot: nat)
      requires ticksPerSlot > 0
      ensures Valid() && |counts| == threads && this.ticksPerSlot == ticksPerSlot
      ensures forall i :: 0 <= i < threads ==> counts[i].records == [] && counts[i].lastTick == 0
    {
      var cs: seq<Counts> := [];
      for i := 0 to threads
        invariant |cs| == i && forall j :: 0 <= j < i ==> cs[j].Valid() && cs[j].ticksPerSlot == ticksPerSlot
        invariant forall j :: 0 <= j < i ==> cs[j].records == [] && cs[j].lastTick == 0
        invariant forall j, k :: 0 <= j < k < i ==> cs[j] != cs[k] && cs[j].val != cs[k].val
      {
        var c := new Counts(ticksPerSlot);
        cs := cs + [c];
      }
      counts, this.ticksPerSlot := cs, ticksPerSlot;
    }

    /** One thread's request; a wrong thread number is refused. */
    method FinishedRequest(thread: nat, now: nat) returns (ok: bool)
      requires Valid() && (thread < |counts| ==> counts[thread].lastTick <= now)
      modifies counts, set c | c in counts :: c.val
      ensures Valid() && ok == (thread < |counts|)
      ensures ok ==> counts[thread].lastTick == now
      ensures ok ==> exists slot :: counts[thread].records == old(counts[thread].records) + [Record(now, slot)]
      ensures forall i :: 0 <= i < |counts| && i != thread ==>
                counts[i].records == old(counts[i].records) && counts[i].lastTick == old(counts[i].lastTick)
    {
      if thread >= |counts| {
        return false;
      }
      counts[thread].FinishedRequest(now);
      return true;
    }

    /** What getStats adds up for the first n threads, before wrapping. */
    ghost function SeenAll(n: nat, now: nat): nat
      requires Valid() && n <= |counts| && forall i :: 0 <= i < |counts| ==> counts[i].lastTick <= now
      reads this, counts, set c | c in counts :: c.val
    {
      if n == 0 then 0 else SeenAll(n - 1, now) + counts[n - 1].Seen(now)
    }

    /** No base slot began exactly a second before `now`. */
    ghost predicate Clear(now: nat)
      reads this, counts
    {
      forall i :: 0 <= i < |counts| ==> counts[i].baseTick + 10 * ticksPerSlot != now
    }

    /** The sum over the threads, modulo 2^32. Unless a base slot began exactly a second
        ago, and as long as fewer than 2^32 requests were made in that second, it is
        between the number of requests of the last nine slots' time and that second's. */
    method GetStats(now: nat) returns (reqs: nat)
      requires Valid() && forall i :: 0 <= i < |counts| ==> counts[i].lastTick <= now
      ensures reqs < 0x1_0000_0000 && (SeenAll(|counts|, now) - reqs) % 0x1_0000_0000 == 0
      ensures Clear(now) && AfterAll(counts, now - 10 * ticksPerSlot) < 0x1_0000_0000 ==>
                AfterAll(counts, now - 9 * ticksPerSlot) <= reqs <= AfterAll(counts, now - 10 * ticksPerSlot)
    {
      hide Wrap, Counts.Seen;
      WrapSame(0);
      reqs := 0;
      for i := 0 to |counts|
        invariant reqs == Wrap(SeenAll(i, now))
      {
        WrapSum(SeenAll(i, now), counts[i].Seen(now));
        reqs := counts[i].AddTo(reqs, now);
      }
      WrapBound(now);
    }

    lemma WrapBound(now: nat)
      requires Valid() && forall i :: 0 <= i < |counts| ==> counts[i].lastTick <= now
      ensures var r := Wrap(SeenAll(|counts|, now));
              && r < 0x1_0000_0000 && (SeenAll(|counts|, now) - r) % 0x1_0000_0000 == 0
              && (Clear(now) && AfterAll(counts, now - 10 * ticksPerSlot) < 0x1_0000_0000 ==>
                    AfterAll(counts, now - 9 * ticksPerSlot) <= r <= AfterAll(counts, now - 10 * ticksPerSlot))
    {
      hide Counts.Seen;
      if Clear(now) {
        StatsBound(|counts|, now);
        assert counts[..|counts|] == counts;
      }
    }

    /** If no base slot began exactly a second before `now`, what is added up is between
        the number of requests of the last nine slots' time and that of the last second. */
    lemma {:induction false} StatsBound(n: nat, now: nat)
      requires Valid() && n <= |counts| && forall i :: 0 <= i < |counts| ==> counts[i].lastTick <= now
      requires Clear(now)
      ensures AfterAll(counts[..n], now - 9 * ticksPerSlot) <= SeenAll(n, now)
      ensures SeenAll(n, now) <= AfterAll(counts[..n], now - 10 * ticksPerSlot)
    {
      hide Counts.Seen;
      if n > 0 {
        StatsBound(n - 1, now);
        var c := counts[n - 1];
        assert c.Second() == 10 * ticksPerSlot;
        c.SeenBound(now);
        assert counts[..n][..n - 1] == counts[..n - 1];
      }
    }
  }

  /** A request made 19 slots ago is counted, though it is almost two seconds old. */
  method CountedTooLate() returns (c: Counts, reqs: nat)
    ensures c.Valid() && reqs == 2 && After(c.records, 19 - 10) == 0
  {
    c := new Counts(1);
    c.FinishedRequest(0);
    c.FinishedRequest(9);
    assert c.records == [Record(0, 0), Record(9, 9)];
    assert c.records[..1] == [Record(0, 0)] && c.records[..1][..0] == [];
    assert FromSlot([], 0) == 0 && FromSlot([Record(0, 0)], 0) == 1 && FromSlot(c.records, 0) == 2;
    assert After([], 9) == 0 && After([Record(0, 0)], 9) == 0;
    reqs := c.AddTo(0, 19);
    WrapSame(2);
  }
}