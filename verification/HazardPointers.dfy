/**
  Hazard-pointer records and retired lists: what a scan frees and keeps, while other
  threads go on changing their slots between any two reads of it.
 */
module HazardPointers {
  import opened Sets

  /** A node's address; 0 is NULL. */
  type Ptr = nat

  const NULL: Ptr := 0

  /** Slot number j of thread i. */
  type Slot = (nat, nat)

  /** The nodes that the slots hold. */
  ghost function NonNull(slots: map<Slot, Ptr>): set<Ptr> {
    set k | k in slots && slots[k] != NULL :: slots[k]
  }

  /** One value for every slot, and for the slots in `held` the one given there. */
  ghost predicate Covers(scan: map<Slot, Ptr>, held: map<Slot, Ptr>, threads: nat, ptrs: nat) {
    && (forall k: Slot :: k in scan <==> k.0 < threads && k.1 < ptrs)
    && (forall k :: k in held ==> k in scan && scan[k] == held[k])
  }

  /** Of `all`, the nodes read in some slot are kept, and the rest joins the deleted. */
  ghost predicate Splits(scan: map<Slot, Ptr>, all: set<Ptr>, kept: set<Ptr>, was: set<Ptr>, now: set<Ptr>) {
    kept == all * NonNull(scan) && now == was + (all - NonNull(scan))
  }

  /** Nothing that a slot holds is deleted. */
  ghost predicate SparesHeld(held: map<Slot, Ptr>, was: set<Ptr>, now: set<Ptr>) {
    forall k :: k in held && held[k] != NULL && held[k] !in was ==> held[k] !in now
  }

  /** The part of a scan up to slot j of thread i. */
  ghost predicate UpTo(scan: map<Slot, Ptr>, held: map<Slot, Ptr>, ptrs: nat, i: nat, j: nat) {
    && (forall k: Slot :: k in scan <==> (k.0 < i && k.1 < ptrs) || (k.0 == i && k.1 < j))
    && (forall k :: k in held && k in scan ==> scan[k] == held[k])
  }

  lemma UpToNext(scan: map<Slot, Ptr>, held: map<Slot, Ptr>, ptrs: nat, i: nat, j: nat, p: Ptr)
    requires UpTo(scan, held, ptrs, i, j) && j < ptrs && ((i, j) in held ==> held[(i, j)] == p)
    ensures (i, j) !in scan && UpTo(scan[(i, j) := p], held, ptrs, i, j + 1)
  {
  }

  lemma UpToRow(scan: map<Slot, Ptr>, held: map<Slot, Ptr>, ptrs: nat, i: nat)
    requires UpTo(scan, held, ptrs, i, ptrs)
    ensures UpTo(scan, held, ptrs, i + 1, 0)
  {
  }

  lemma UpToEnd(scan: map<Slot, Ptr>, held: map<Slot, Ptr>, threads: nat, ptrs: nat)
    requires UpTo(scan, held, ptrs, threads, 0)
    requires forall k :: k in held ==> k.0 < threads && k.1 < ptrs
    ensures Covers(scan, held, threads, ptrs)
  {
  }

  /** With every slot held there is only one thing to read. */
  lemma CoversAll(scan: map<Slot, Ptr>, held: map<Slot, Ptr>, threads: nat, ptrs: nat)
    requires Covers(scan, held, threads, ptrs)
    requires forall k: Slot :: k.0 < threads && k.1 < ptrs ==> k in held
    ensures NonNull(scan) == NonNull(held)
  {
    assert scan == held;
  }

  lemma NonNullMore(scan: map<Slot, Ptr>, k: Slot, p: Ptr)
    requires k !in scan
    ensures NonNull(scan[k := p]) == NonNull(scan) + if p == NULL then {} else {p}
  {
    var more := scan[k := p];
    assert forall q :: q in NonNull(more) ==> q in NonNull(scan) || q == p;
    forall q | q in NonNull(scan)
      ensures q in NonNull(more)
    {
      var i :| i in scan && scan[i] != NULL && scan[i] == q;
      assert i in more && more[i] == q;
    }
    assert p != NULL ==> k in more && more[k] in NonNull(more);
  }

  function Max(a: nat, b: nat): nat { if a < b then b else a }

  /** A sweep under way: what it kept, what it freed, and what is still to do. */
  ghost predicate Sorted(all: set<Ptr>, active: set<Ptr>, kept: set<Ptr>, freed: set<Ptr>, todo: set<Ptr>) {
    && all == kept + freed + todo && kept !! freed && kept !! todo && freed !! todo
    && kept <= active && freed !! active
  }

  lemma SortNone(all: set<Ptr>, active: set<Ptr>, before: set<Ptr>)
    ensures Sorted(all, active, {}, {}, all) && {} + all == all && before + {} == before
  {
  }

  lemma KeepOne(all: set<Ptr>, active: set<Ptr>, kept: set<Ptr>, freed: set<Ptr>, todo: set<Ptr>, node: Ptr)
    requires Sorted(all, active, kept, freed, todo) && node in todo && node in active
    ensures Sorted(all, active, kept + {node}, freed, todo - {node})
    ensures kept + todo == (kept + {node}) + (todo - {node}) && |todo - {node}| < |todo|
  {
  }

  lemma FreeOne(all: set<Ptr>, active: set<Ptr>, kept: set<Ptr>, freed: set<Ptr>, todo: set<Ptr>,
                before: set<Ptr>, node: Ptr)
    requires Sorted(all, active, kept, freed, todo) && node in todo && node !in active
    ensures Sorted(all, active, kept, freed + {node}, todo - {node})
    ensures kept + todo - {node} == kept + (todo - {node}) && node in kept + todo
    ensures before + freed + {node} == before + (freed + {node})
    ensures |freed + {node}| == |freed| + 1 && |todo - {node}| < |todo|
  {
  }

  lemma SortedAll(all: set<Ptr>, active: set<Ptr>, kept: set<Ptr>, freed: set<Ptr>)
    requires Sorted(all, active, kept, freed, {})
    ensures kept == all * active == kept + {} && freed == all - active && |freed| == |all| - |kept|
  {
    assert all == kept + freed;
  }

  class HazardPointers {
    const threads: nat
    const ptrs: nat
    const maxRetired: nat
    const slots: array2<Ptr>
    const retired: array<set<Ptr>>
    /** The nodes deleted so far. */
    var deleted: set<Ptr>

    /** No node is retired twice or after its deletion. */
    ghost predicate Valid()
      reads this, retired
    {
      && slots.Length0 == threads && slots.Length1 == ptrs && retired.Length == threads
      && (forall t :: 0 <= t < threads ==> retired[t] !! deleted)
      && (forall t, u :: 0 <= t < threads && 0 <= u < threads && t != u ==> retired[t] !! retired[u])
    }

    /** Slots that their threads leave alone for now, and what they hold. */
    ghost predicate Holds(held: map<Slot, Ptr>)
      reads slots
    {
      forall k :: k in held ==> k.0 < slots.Length0 && k.1 < slots.Length1 && slots[k.0, k.1] == held[k]
    }

    constructor (threads: nat, ptrs: nat, maxRetired: nat)
      ensures Valid() && this.threads == threads && this.ptrs == ptrs && this.maxRetired == maxRetired
      ensures deleted == {} && forall t :: 0 <= t < threads ==> retired[t] == {}
      ensures fresh(slots) && fresh(retired)
    {
      this.threads, this.ptrs, this.maxRetired := threads, ptrs, maxRetired;
      slots := new Ptr[threads, ptrs];
      retired := new set<Ptr>[threads](_ => {});
      deleted := {};
    }

    /** Any number of assignments by other threads to slots that are not held. */
    method OtherThreads(held: map<Slot, Ptr>)
      requires Holds(held)
      modifies slots
      ensures Holds(held)
    {
      var more: bool := *;
      var turns: nat := *;
      while more && turns > 0
        invariant Holds(held)
        decreases turns
      {
        var i: nat, j: nat, p: Ptr := *, *, *;
        if i < slots.Length0 && j < slots.Length1 && (i, j) !in held {
          slots[i, j] := p;
        }
        more, turns := *, turns - 1;
      }
    }

    method Delete(node: Ptr)
      requires node !in deleted
      modifies this`deleted
      ensures deleted == old(deleted) + {node}
    {
      deleted := deleted + {node};
    }

    /** The scan's first half: the slots are read one at a time, and the nodes in them
        are the active ones. */
    method Snapshot(held: map<Slot, Ptr>) returns (active: set<Ptr>, ghost scan: map<Slot, Ptr>)
      requires slots.Length0 == threads && slots.Length1 == ptrs && Holds(held)
      modifies slots
      ensures Holds(held) && Covers(scan, held, threads, ptrs)
      ensures active == NonNull(scan) && |active| <= threads * ptrs
    {
      hide NonNull, UpTo, Covers;
      active, scan := {}, map[];
      NothingRead(held, ptrs);
      for i := 0 to threads
        invariant Holds(held) && UpTo(scan, held, ptrs, i, 0)
        invariant active == NonNull(scan) && |active| <= i * ptrs
      {
        for j := 0 to ptrs
          invariant Holds(held) && UpTo(scan, held, ptrs, i, j)
          invariant active == NonNull(scan) && |active| <= i * ptrs + j
        {
          OtherThreads(held);
          UpToNext(scan, held, ptrs, i, j, slots[i, j]);
          NonNullMore(scan, (i, j), slots[i, j]);
          scan := scan[(i, j) := slots[i, j]];
          if slots[i, j] != NULL {
            active := active + {slots[i, j]};
          }
        }
        UpToRow(scan, held, ptrs, i);
      }
      UpToEnd(scan, held, threads, ptrs);
    }

    /** Deletes one node of a retired list. */
    method Reclaim(t: nat, node: Ptr)
      requires Valid() && t < threads && node in retired[t]
      modifies this`deleted, retired
      ensures Valid() && retired[t] == old(retired[t]) - {node} && deleted == old(deleted) + {node}
      ensures forall u :: 0 <= u < threads && u != t ==> retired[u] == old(retired[u])
    {
      assert forall u :: 0 <= u < threads && u != t ==> node !in retired[u];
      Delete(node);
      retired[t] := retired[t] - {node};
    }

    /** The scan's second half: deletes what is not active. */
    method Sweep(t: nat, active: set<Ptr>) returns (reclaimed: nat)
      requires Valid() && t < threads
      modifies this`deleted, retired
      ensures Valid() && retired[t] == old(retired[t]) * active
      ensures deleted == old(deleted) + (old(retired[t]) - active)
      ensures reclaimed == |old(retired[t])| - |retired[t]|
      ensures forall u :: 0 <= u < threads && u != t ==> retired[u] == old(retired[u])
    {
      hide Valid, Sorted;
      InRange(t);
      ghost var all, before := retired[t], deleted;
      SortNone(all, active, before);
      ghost var kept, freed: set<Ptr> := {}, {};
      reclaimed := 0;
      var todo := retired[t];
      while todo != {}
        invariant Valid() && t < retired.Length == threads
        invariant Sorted(all, active, kept, freed, todo)
        invariant retired[t] == kept + todo && deleted == before + freed && reclaimed == |freed|
        invariant forall u :: 0 <= u < threads && u != t ==> retired[u] == old(retired[u])
        decreases |todo|
      {
        var node: Ptr :| node in todo;
        if node !in active {
          FreeOne(all, active, kept, freed, todo, before, node);
          Reclaim(t, node);
          freed := freed + {node};
          reclaimed := reclaimed + 1;
        } else {
          KeepOne(all, active, kept, freed, todo, node);
          kept := kept + {node};
        }
        todo := todo - {node};
      }
      SortedAll(all, active, kept, freed);
    }

    lemma InRange(t: nat)
      requires Valid() && t < threads
      ensures t < retired.Length == threads
    {
    }

    /** Splits the retired list into the nodes read in some slot, which are kept, and the
        rest, which is deleted and counted; what a slot holds all along is read there. */
    method MaybeFreeNodes(t: nat, held: map<Slot, Ptr>) returns (reclaimed: nat, ghost scan: map<Slot, Ptr>)
      requires Valid() && t < threads && Holds(held)
      modifies this`deleted, slots, retired
      ensures Valid() && Holds(held) && Covers(scan, held, threads, ptrs)
      ensures retired[t] == old(retired[t]) * NonNull(scan)
      ensures deleted == old(deleted) + (old(retired[t]) - NonNull(scan))
      ensures (forall k: Slot :: k.0 < threads && k.1 < ptrs ==> k in held) ==>
                retired[t] == old(retired[t]) * NonNull(held)
      ensures reclaimed == |old(retired[t])| - |retired[t]| && |retired[t]| <= threads * ptrs
      ensures forall u :: 0 <= u < threads && u != t ==> retired[u] == old(retired[u])
    {
      hide NonNull, Covers;
      var active;
      active, scan := Snapshot(held);
      reclaimed := Sweep(t, active);
      SubsetSize(retired[t], active);
      if forall k: Slot :: k.0 < threads && k.1 < ptrs ==> k in held {
        CoversAll(scan, held, threads, ptrs);
      }
    }

    /** The node is on no list and not deleted. */
    ghost predicate Unretired(node: Ptr)
      requires Valid()
      reads this, retired
    {
      node !in deleted && forall u :: 0 <= u < threads ==> node !in retired[u]
    }

    method Insert(t: nat, node: Ptr)
      requires Valid() && t < threads && Unretired(node)
      modifies retired
      ensures Valid() && retired[t] == old(retired[t]) + {node}
      ensures forall u :: 0 <= u < threads && u != t ==> retired[u] == old(retired[u])
    {
      retired[t] := retired[t] + {node};
    }

    /** Retires a node, and scans exactly when the list has grown too long. Nothing is
        lost, a scan deletes exactly the nodes that it read in no slot, and nothing that a
        slot holds all along is deleted. */
    method RetireNode(t: nat, node: Ptr, held: map<Slot, Ptr>) returns (reclaimed: nat, ghost scan: map<Slot, Ptr>)
      requires Valid() && t < threads && Holds(held) && Unretired(node)
      modifies this`deleted, slots, retired
      ensures Valid() && Holds(held)
      ensures if |old(retired[t])| >= maxRetired then
                && Covers(scan, held, threads, ptrs)
                && Splits(scan, old(retired[t]) + {node}, retired[t], old(deleted), deleted)
              else
                retired[t] == old(retired[t]) + {node} && deleted == old(deleted)
      ensures reclaimed == |old(retired[t])| + 1 - |retired[t]|
      ensures |retired[t]| <= Max(maxRetired, threads * ptrs)
      ensures SparesHeld(held, old(deleted), deleted)
      ensures forall u :: 0 <= u < threads && u != t ==> retired[u] == old(retired[u])
    {
      hide Valid, NonNull, Covers;
      InRange(t);
      Insert(t, node);
      reclaimed, scan := 0, map[];
      if |retired[t]| > maxRetired {
        reclaimed, scan := MaybeFreeNodes(t, held);
        HeldAreRead(scan, held, threads, ptrs);
      }
    }
  }

  lemma NothingRead(held: map<Slot, Ptr>, ptrs: nat)
    ensures NonNull(map[]) == {} && UpTo(map[], held, ptrs, 0, 0)
  {
  }

  lemma HeldAreRead(scan: map<Slot, Ptr>, held: map<Slot, Ptr>, threads: nat, ptrs: nat)
    requires Covers(scan, held, threads, ptrs)
    ensures forall k :: k in held && held[k] != NULL ==> held[k] in NonNull(scan)
  {
  }
}
