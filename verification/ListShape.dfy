/** The shape of the list's memory: what is true of the cells at every moment,
    and what each kind of write does to it. */
module ListShape {
  import opened Sets
  import opened ListMachine

  /** a comes strictly before b; HEAD comes before every node. */
  ghost predicate Before(h: Heap, a: Ptr, b: Ptr)
    requires a in h && b in h
  {
    b != HEAD && (a == HEAD || h[a].key < h[b].key)
  }

  /** The node (or HEAD) lies strictly below key k. */
  ghost predicate Below(h: Heap, p: Ptr, k: int)
    requires p in h
  {
    p == HEAD || h[p].key < k
  }

  /** The successor of n is the next higher member of l; NULL when there is none. */
  ghost predicate Succ(h: Heap, l: set<Ptr>, n: Ptr)
    requires l <= h.Keys && n in l
  {
    var x := h[n].next;
    && (x != NULL ==> x in l && Before(h, n, x))
    && (forall m {:trigger Before(h, n, m)} :: m in l && Before(h, n, m) ==> x != NULL && (m == x || Before(h, x, m)))
  }

  /** `l` is the set of cells on one strictly ascending, NULL-terminated chain
      that starts at HEAD. */
  ghost predicate Shape(h: Heap, l: set<Ptr>) {
    && NULL !in h && HEAD in l && l <= h.Keys && !h[HEAD].mark
    && (forall n {:trigger Succ(h, l, n)} :: n in l ==> Succ(h, l, n))
    && (forall n, m {:trigger Before(h, n, m)} :: n in l && m in l && n != m ==> Before(h, n, m) || Before(h, m, n))
  }

  /** Linked now, or linked once and marked since. */
  ghost predicate Published(h: Heap, l: set<Ptr>, p: Ptr) {
    p in h && p != HEAD && (p in l || h[p].mark)
  }

  ghost predicate PublishedOrNull(h: Heap, l: set<Ptr>, p: Ptr) {
    p == NULL || Published(h, l, p)
  }

  /** The successor of a published cell, or of HEAD, is published too. */
  ghost predicate NextOk(h: Heap, l: set<Ptr>, n: Ptr) {
    n in h && (n in l || Published(h, l, n)) ==> PublishedOrNull(h, l, h[n].next)
  }

  ghost predicate HeapOk(h: Heap, l: set<Ptr>) {
    && Shape(h, l)
    && forall n {:trigger NextOk(h, l, n)} :: NextOk(h, l, n)
  }

  // ------------------------------------------------ the chain is what is reachable

  lemma {:induction false} ReachesStaysLinked(h: Heap, l: set<Ptr>, a: Ptr, b: Ptr, k: nat)
    requires Shape(h, l) && a in l && Reaches(h, a, b, k) && b in h
    ensures b in l
    decreases k
  {
    if k > 0 {
      assert Succ(h, l, a);
      assert Reaches(h, h[a].next, b, k - 1);
      ReachesStaysLinked(h, l, h[a].next, b, k - 1);
    }
  }

  ghost function Above(h: Heap, l: set<Ptr>, a: Ptr): set<Ptr>
    requires l <= h.Keys && a in h
  {
    set m | m in l && Before(h, a, m)
  }

  lemma {:induction false} WalkTo(h: Heap, l: set<Ptr>, a: Ptr, b: Ptr) returns (k: nat)
    requires Shape(h, l) && a in l && b in l && (a == b || Before(h, a, b))
    ensures Reaches(h, a, b, k)
    decreases |Above(h, l, a)|
  {
    if a == b {
      k := 0;
    } else {
      assert Succ(h, l, a);
      var n := h[a].next;
      assert n in Above(h, l, a) && n !in Above(h, l, n);
      assert Above(h, l, n) <= Above(h, l, a) - {n};
      SmallerSet(Above(h, l, n), Above(h, l, a), n);
      var k' := WalkTo(h, l, n, b);
      k := k' + 1;
    }
  }

  lemma SmallerSet(a: set<Ptr>, b: set<Ptr>, x: Ptr)
    requires a <= b - {x} && x in b
    ensures |a| < |b|
  {
    SubsetSize(a, b - {x});
  }

  /** A set with the shape of the chain is exactly the set of reachable cells. */
  lemma LinkedIsShape(h: Heap, l: set<Ptr>)
    requires Shape(h, l)
    ensures Linked(h) == l
  {
    forall p | p in l
      ensures p in Linked(h)
    {
      var k := WalkTo(h, l, HEAD, p);
    }
    forall p | p in Linked(h)
      ensures p in l
    {
      var k :| Reaches(h, HEAD, p, k);
      ReachesStaysLinked(h, l, HEAD, p, k);
    }
  }

  // ------------------------------------------------------------ the abstract map

  /** The abstract map holds exactly the live nodes' keys, each with its node's value. */
  lemma AbsOf(h: Heap, l: set<Ptr>)
    requires Shape(h, l) && l == Linked(h)
    ensures forall n :: n in l && n != HEAD && !h[n].mark ==> h[n].key in Abs(h) && Abs(h)[h[n].key] == h[n].value
    ensures forall k :: k in Abs(h) ==> exists n :: n in l && n != HEAD && !h[n].mark && h[n].key == k
  {
    forall n | n in l && n != HEAD && !h[n].mark
      ensures h[n].key in Abs(h) && Abs(h)[h[n].key] == h[n].value
    {
      assert Live(h, n);
      var p := LiveNode(h, h[n].key);
      assert !Before(h, p, n) && !Before(h, n, p);
    }
    forall k | k in Abs(h)
      ensures exists n :: n in l && n != HEAD && !h[n].mark && h[n].key == k
    {
      var n :| n in h && Live(h, n) && h[n].key == k;
    }
  }

  /** A key that falls strictly between a linked cell and its successor is absent. */
  lemma GapIsAbsent(h: Heap, l: set<Ptr>, p: Ptr, k: int)
    requires Shape(h, l) && l == Linked(h) && p in l && Below(h, p, k)
    requires h[p].next == NULL || (h[p].next in l && h[h[p].next].key > k)
    ensures k !in Abs(h)
  {
    assert Succ(h, l, p);
    AbsOf(h, l);
    forall n | n in l && n != HEAD && !h[n].mark
      ensures h[n].key != k
    {
      assert !Before(h, p, n) || n == h[p].next || Before(h, h[p].next, n);
    }
  }

  // ---------------------------------------------------------- what writes may do

  /** From one moment to the next: nothing published vanishes or changes its key
      or value, and a marked cell is frozen. */
  ghost predicate Grows(h: Heap, l: set<Ptr>, h': Heap, l': set<Ptr>) {
    && (forall n :: n in h ==> n in h' && h'[n].key == h[n].key && h'[n].value == h[n].value)
    && (forall n :: n in h && h[n].mark ==> h'[n] == h[n])
    && (forall n :: Published(h, l, n) ==> Published(h', l', n))
    && (forall n :: n in h && n in l && !h[n].mark ==> n in l')
  }

  /** The cell at p is not part of the structure: not published, and not HEAD. */
  ghost predicate Private(h: Heap, l: set<Ptr>, p: Ptr) {
    p in h && p != HEAD && p != NULL && !Published(h, l, p)
  }

  lemma SameOrder(h: Heap, h': Heap)
    requires h.Keys <= h'.Keys && forall n :: n in h ==> h'[n].key == h[n].key
    ensures forall a, b {:trigger Before(h', a, b)} :: a in h && b in h ==> Before(h', a, b) == Before(h, a, b)
  {
  }

  /** Two memories with the same live nodes stand for the same map. */
  lemma SameAbs(h: Heap, h': Heap, l: set<Ptr>, l': set<Ptr>)
    requires Shape(h, l) && Shape(h', l') && l == Linked(h) && l' == Linked(h')
    requires forall n :: n in l && n != HEAD && !h[n].mark ==>
             n in l' && !h'[n].mark && h'[n].key == h[n].key && h'[n].value == h[n].value
    requires forall n :: n in l' && n != HEAD && !h'[n].mark ==>
             n in l && !h[n].mark && h'[n].key == h[n].key && h'[n].value == h[n].value
    ensures Abs(h) == Abs(h')
  {
    AbsOf(h, l);
    AbsOf(h', l');
  }

  /** Writing a cell that nobody can reach changes nothing. */
  lemma WritePrivate(h: Heap, l: set<Ptr>, p: Ptr, node: Node)
    requires HeapOk(h, l) && p != NULL && (p !in h || Private(h, l, p)) && !node.mark
    requires p in h ==> node.key == h[p].key && node.value == h[p].value
    ensures HeapOk(h[p := node], l) && Grows(h, l, h[p := node], l) && p !in l
    ensures Linked(h[p := node]) == l && Abs(h[p := node]) == Abs(h)
  {
    var h' := h[p := node];
    LinkedIsShape(h, l);
    assert p !in l;
    SameOrder(h, h');
    forall n | n in l
      ensures Succ(h', l, n)
    {
      assert Succ(h, l, n);
    }
    forall n
      ensures NextOk(h', l, n)
    {
      assert NextOk(h, l, n);
    }
    LinkedIsShape(h', l);
    SameAbs(h, h', l, l);
  }

  /** A node that may be inserted between p and its successor. */
  ghost predicate Fits(h: Heap, l: set<Ptr>, p: Ptr, n: Ptr) {
    && HeapOk(h, l) && p in l && !h[p].mark && Private(h, l, n)
    && h[n].next == h[p].next && Below(h, p, h[n].key)
    && (h[p].next in h ==> h[n].key < h[h[p].next].key)
  }

  /** Such a node falls exactly between: below it are p and what p follows. */
  lemma FitsBetween(h: Heap, l: set<Ptr>, p: Ptr, n: Ptr)
    requires Fits(h, l, p, n)
    ensures forall m {:trigger Before(h, m, n)} :: m in l ==> (Before(h, m, n) <==> m == p || Before(h, m, p))
    ensures forall m {:trigger Before(h, n, m)} :: m in l ==> (Before(h, n, m) <==> Before(h, p, m))
  {
    assert Succ(h, l, p);
    forall m | m in l
      ensures Before(h, m, n) <==> m == p || Before(h, m, p)
      ensures Before(h, n, m) <==> Before(h, p, m)
    {
      assert m == p || Before(h, m, p) || Before(h, p, m);
    }
  }

  /** The insertion CAS: a private node pointing at the successor of an unmarked
      linked cell, with a key strictly between, becomes linked. */
  lemma LinkNode(h: Heap, l: set<Ptr>, p: Ptr, n: Ptr)
    requires Fits(h, l, p, n)
    ensures HeapOk(SetNext(h, p, n), l + {n}) && Grows(h, l, SetNext(h, p, n), l + {n})
  {
    var h', l' := SetNext(h, p, n), l + {n};
    assert Succ(h, l, p);
    SameOrder(h, h');
    FitsBetween(h, l, p, n);
    forall m | m in l'
      ensures Succ(h', l', m)
    {
      if m != n {
        assert Succ(h, l, m);
        assert m == p || Before(h, m, p) || Before(h, p, m);
      }
    }
    forall a, b | a in l' && b in l' && a != b
      ensures Before(h', a, b) || Before(h', b, a)
    {
      if a == n {
        assert b == p || Before(h, b, p) || Before(h, p, b);
      } else if b == n {
        assert a == p || Before(h, a, p) || Before(h, p, a);
      } else {
        assert Before(h, a, b) || Before(h, b, a);
      }
    }
    forall m
      ensures NextOk(h', l', m)
    {
      assert NextOk(h, l, m) && NextOk(h, l, p);
    }
  }

  /** ... and its key joins the map, which did not hold it. */
  lemma LinkNodeAbs(h: Heap, l: set<Ptr>, p: Ptr, n: Ptr)
    requires Fits(h, l, p, n) && l == Linked(h)
    ensures Linked(SetNext(h, p, n)) == l + {n}
    ensures h[n].key !in Abs(h) && Abs(SetNext(h, p, n)) == Abs(h)[h[n].key := h[n].value]
  {
    var h', l' := SetNext(h, p, n), l + {n};
    LinkNode(h, l, p, n);
    LinkedIsShape(h', l');
    assert h[n].key !in Abs(h) by {
      assert Succ(h, l, p);
      GapIsAbsent(h, l, p, h[n].key);
    }
    AddedAbs(h, h', l, l', n);
  }

  lemma AddedAbs(h: Heap, h': Heap, l: set<Ptr>, l': set<Ptr>, n: Ptr)
    requires Shape(h, l) && Shape(h', l') && l == Linked(h) && l' == Linked(h') && l' == l + {n}
    requires forall m :: m in l ==> h'[m].key == h[m].key && h'[m].value == h[m].value && h'[m].mark == h[m].mark
    requires n in h && n !in l && n != HEAD && !h'[n].mark && h'[n].key == h[n].key && h'[n].value == h[n].value
    ensures Abs(h') == Abs(h)[h[n].key := h[n].value]
  {
    AbsOf(h, l);
    AbsOf(h', l');
    assert Abs(h').Keys == Abs(h).Keys + {h[n].key};
    forall k | k in Abs(h)
      ensures k == h[n].key || Abs(h')[k] == Abs(h)[k]
    {
      var m :| m in l && m != HEAD && !h[m].mark && h[m].key == k;
      assert m in l';
    }
  }

  /** The unlinking CAS: a marked linked cell is bypassed. */
  lemma UnlinkNode(h: Heap, l: set<Ptr>, p: Ptr, n: Ptr)
    requires HeapOk(h, l) && p in l && !h[p].mark && h[p].next == n && n in h && h[n].mark
    ensures n in l && n != HEAD
    ensures HeapOk(SetNext(h, p, h[n].next), l - {n}) && Grows(h, l, SetNext(h, p, h[n].next), l - {n})
  {
    var h', l' := SetNext(h, p, h[n].next), l - {n};
    assert Succ(h, l, p) && Succ(h, l, n);
    SameOrder(h, h');
    forall m | m in l'
      ensures Succ(h', l', m)
    {
      assert Succ(h, l, m);
      assert m != p ==> Before(h, m, p) || Before(h, p, m);
    }
    forall m
      ensures NextOk(h', l', m)
    {
      assert NextOk(h, l, m) && NextOk(h, l, n);
    }
  }

  /** ... which does not change the map. */
  lemma UnlinkNodeAbs(h: Heap, l: set<Ptr>, p: Ptr, n: Ptr)
    requires HeapOk(h, l) && p in l && !h[p].mark && h[p].next == n && n in h && h[n].mark
    ensures Linked(SetNext(h, p, h[n].next)) == l - {n}
    ensures Abs(SetNext(h, p, h[n].next)) == Abs(h)
  {
    UnlinkNode(h, l, p, n);
    LinkedIsShape(h, l);
    LinkedIsShape(SetNext(h, p, h[n].next), l - {n});
    SameAbs(h, SetNext(h, p, h[n].next), l, l - {n});
  }

  /** The marking CAS: an unmarked published node is linked and stays linked. */
  lemma MarkNode(h: Heap, l: set<Ptr>, n: Ptr)
    requires HeapOk(h, l) && Published(h, l, n) && !h[n].mark
    ensures HeapOk(SetMark(h, n), l) && Grows(h, l, SetMark(h, n), l)
  {
    SameOrder(h, SetMark(h, n));
    forall m | m in l
      ensures Succ(SetMark(h, n), l, m)
    {
      assert Succ(h, l, m);
    }
    forall m
      ensures NextOk(SetMark(h, n), l, m)
    {
      assert NextOk(h, l, m);
    }
  }

  /** ... and its key leaves the map. */
  lemma MarkNodeAbs(h: Heap, l: set<Ptr>, n: Ptr)
    requires HeapOk(h, l) && Published(h, l, n) && !h[n].mark
    ensures Linked(SetMark(h, n)) == l
    ensures h[n].key in Abs(h) && Abs(SetMark(h, n)) == Abs(h) - {h[n].key}
  {
    hide NextOk, Grows;
    var h' := SetMark(h, n);
    MarkNode(h, l, n);
    LinkedIsShape(h, l);
    LinkedIsShape(h', l);
    AbsOf(h, l);
    AbsOf(h', l);
    forall m | m in l && m != HEAD && !h'[m].mark
      ensures h'[m].key != h[n].key
    {
      assert Before(h, m, n) || Before(h, n, m);
    }
    assert Abs(h').Keys == Abs(h).Keys - {h[n].key};
  }
}
