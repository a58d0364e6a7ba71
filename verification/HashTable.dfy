/** The hash table of lock_free_hash_table.cpp, one operation at a time, as a
    refinement of a map keyed by the key's 31 low bits. */
module HashTable {
  import opened Sets
  import opened Words
  import opened SplitOrder
  import opened SequentialList

  // ------------------------------------------------- what a chain of nodes stands for

  ghost predicate Holds(s: seq<Node>, d: u32) {
    exists i :: 0 <= i < |s| && s[i].data == d
  }

  ghost function ValueOf(s: seq<Node>, d: u32): int
    requires Holds(s, d)
  {
    var i :| 0 <= i < |s| && s[i].data == d;
    s[i].value
  }

  /** The map behind a chain: regular nodes only, by the key they stand for. */
  ghost function Contents(s: seq<Node>): map<int, int> {
    map k: int | 0 <= k < MSB && Holds(s, RegularKey(k)) :: ValueOf(s, RegularKey(k))
  }

  lemma ValueAt(s: seq<Node>, i: nat)
    requires AscendingNodes(s) && i < |s|
    ensures Holds(s, s[i].data) && ValueOf(s, s[i].data) == s[i].value
  {
    var j :| 0 <= j < |s| && s[j].data == s[i].data && ValueOf(s, s[i].data) == s[j].value;
    assert j == i;
  }

  lemma HoldsInsert(s: seq<Node>, j: nat, n: Node, d: u32)
    requires j <= |s| && AscendingNodes(InsertAt(s, j, n)) && AscendingNodes(s)
    ensures Holds(InsertAt(s, j, n), d) <==> Holds(s, d) || d == n.data
    ensures Holds(s, d) ==> ValueOf(InsertAt(s, j, n), d) == ValueOf(s, d)
    ensures Holds(InsertAt(s, j, n), n.data) && ValueOf(InsertAt(s, j, n), n.data) == n.value
  {
    hide AscendingNodes;
    var s' := InsertAt(s, j, n);
    ValueAt(s', j);
    if Holds(s, d) {
      var i :| 0 <= i < |s| && s[i].data == d;
      ValueAt(s, i);
      ValueAt(s', if i < j then i else i + 1);
    }
    if Holds(s', d) && d != n.data {
      var i :| 0 <= i < |s'| && s'[i].data == d;
      assert s[if i < j then i else i - 1].data == d;
    }
  }

  /** Linking a dummy changes nothing. */
  lemma ContentsDummy(s: seq<Node>, j: nat, n: Node)
    requires j <= |s| && AscendingNodes(InsertAt(s, j, n)) && AscendingNodes(s) && n.data % 2 == 0
    ensures Contents(InsertAt(s, j, n)) == Contents(s)
  {
    forall k: int | 0 <= k < MSB
      ensures Holds(InsertAt(s, j, n), RegularKey(k)) <==> Holds(s, RegularKey(k))
      ensures Holds(s, RegularKey(k)) ==> ValueOf(InsertAt(s, j, n), RegularKey(k)) == ValueOf(s, RegularKey(k))
    {
      Parity(k, 0);
      HoldsInsert(s, j, n, RegularKey(k));
    }
  }

  lemma RegularInsert(s: seq<Node>, j: nat, n: Node, k: u32, m: u32)
    requires j <= |s| && AscendingNodes(InsertAt(s, j, n)) && AscendingNodes(s)
    requires n.data == RegularKey(k) && m < MSB
    ensures Holds(InsertAt(s, j, n), RegularKey(m)) <==> Holds(s, RegularKey(m)) || m == k % MSB
    ensures Holds(s, RegularKey(m)) ==> ValueOf(InsertAt(s, j, n), RegularKey(m)) == ValueOf(s, RegularKey(m))
    ensures m == k % MSB ==> ValueOf(InsertAt(s, j, n), RegularKey(m)) == n.value
  {
    HoldsInsert(s, j, n, RegularKey(m));
    RegularInjective(m, k);
  }

  /** Linking a regular node binds its key. */
  lemma ContentsRegular(s: seq<Node>, j: nat, n: Node, k: u32)
    requires j <= |s| && AscendingNodes(InsertAt(s, j, n)) && AscendingNodes(s)
    requires n.data == RegularKey(k) && !Holds(s, n.data)
    ensures k % MSB !in Contents(s) && Contents(InsertAt(s, j, n)) == Contents(s)[k % MSB := n.value]
  {
    ContentsHas(s, k);
    forall m: int {:trigger RegularKey(m)} | 0 <= m < MSB
      ensures Holds(InsertAt(s, j, n), RegularKey(m)) <==> Holds(s, RegularKey(m)) || m == k % MSB
      ensures Holds(s, RegularKey(m)) ==> ValueOf(InsertAt(s, j, n), RegularKey(m)) == ValueOf(s, RegularKey(m))
      ensures m == k % MSB ==> ValueOf(InsertAt(s, j, n), RegularKey(m)) == n.value
    {
      RegularInsert(s, j, n, k, m);
    }
  }

  lemma AscendingRemove(s: seq<Node>, j: nat)
    requires j < |s| && AscendingNodes(s)
    ensures AscendingNodes(RemoveAt(s, j))
    ensures !Holds(RemoveAt(s, j), s[j].data)
  {
    forall i | 0 <= i < |s| - 1
      ensures RemoveAt(s, j)[i] == s[if i < j then i else i + 1]
    {
    }
  }

  lemma HoldsRemove(s: seq<Node>, j: nat, d: u32)
    requires j < |s| && AscendingNodes(s) && d != s[j].data
    ensures AscendingNodes(RemoveAt(s, j))
    ensures Holds(RemoveAt(s, j), d) <==> Holds(s, d)
    ensures Holds(s, d) ==> ValueOf(RemoveAt(s, j), d) == ValueOf(s, d)
  {
    var s' := RemoveAt(s, j);
    AscendingRemove(s, j);
    if Holds(s, d) {
      var i :| 0 <= i < |s| && s[i].data == d;
      ValueAt(s, i);
      var i' := if i < j then i else i - 1;
      assert s'[i'] == s[i];
      ValueAt(s', i');
    }
    if Holds(s', d) {
      var i :| 0 <= i < |s'| && s'[i].data == d;
      assert s[if i < j then i else i + 1].data == d;
    }
  }

  lemma RegularRemove(s: seq<Node>, j: nat, k: u32, m: u32)
    requires j < |s| && AscendingNodes(s) && s[j].data == RegularKey(k) && m < MSB
    ensures Holds(RemoveAt(s, j), RegularKey(m)) <==> Holds(s, RegularKey(m)) && m != k % MSB
    ensures Holds(RemoveAt(s, j), RegularKey(m)) ==> ValueOf(RemoveAt(s, j), RegularKey(m)) == ValueOf(s, RegularKey(m))
  {
    hide AscendingNodes, RegularKey;
    RegularInjective(m, k);
    if m == k % MSB {
      AscendingRemove(s, j);
    } else {
      HoldsRemove(s, j, RegularKey(m));
    }
  }

  /** Unlinking a regular node unbinds its key. */
  lemma ContentsRemove(s: seq<Node>, j: nat, k: u32)
    requires j < |s| && AscendingNodes(s) && s[j].data == RegularKey(k)
    ensures k % MSB in Contents(s) && Contents(RemoveAt(s, j)) == Contents(s) - {k % MSB}
  {
    hide AscendingNodes;
    ContentsHas(s, k);
    ValueAt(s, j);
    forall m: int {:trigger RegularKey(m)} | 0 <= m < MSB
      ensures Holds(RemoveAt(s, j), RegularKey(m)) <==> Holds(s, RegularKey(m)) && m != k % MSB
      ensures Holds(RemoveAt(s, j), RegularKey(m)) ==>
              ValueOf(RemoveAt(s, j), RegularKey(m)) == ValueOf(s, RegularKey(m))
    {
      RegularRemove(s, j, k, m);
    }
  }

  /** A key is bound exactly when its regular node is on the chain. */
  lemma ContentsHas(s: seq<Node>, k: u32)
    ensures k % MSB in Contents(s) <==> Holds(s, RegularKey(k))
    ensures Holds(s, RegularKey(k)) ==> Contents(s)[k % MSB] == ValueOf(s, RegularKey(k))
  {
    hide RegularKey, ValueOf, Holds;
    RegularInjective(k % MSB, k);
  }

  // -------------------------------------------------------------------- counting

  lemma {:induction false} RangeSize(n: nat) returns (r: set<int>)
    ensures forall i :: i in r <==> 0 <= i < n
    ensures |r| == n
  {
    if n == 0 {
      r := {};
    } else {
      var r' := RangeSize(n - 1);
      r := r' + {n - 1};
    }
  }

  lemma ContentsSize(s: seq<Node>)
    ensures |Contents(s)| <= MSB
  {
    var r := RangeSize(MSB);
    SubsetSize(Contents(s).Keys, r);
    assert |Contents(s)| == |Contents(s).Keys|;
  }

  lemma RemovedSize(m: map<int, int>, k: int)
    requires k in m
    ensures |m - {k}| == |m| - 1
  {
    assert (m - {k}).Keys == m.Keys - {k};
    assert |m| == |m.Keys| && |m - {k}| == |(m - {k}).Keys|;
  }

  // --------------------------------------------------------------------- the table

  lemma NoContents(s: seq<Node>)
    requires s == []
    ensures Contents(s) == map[]
  {
  }

  /** What linking or unlinking a node does to membership. */
  lemma InsertMembers(s: seq<Node>, j: nat, n: Node)
    requires j <= |s|
    ensures forall m :: m in InsertAt(s, j, n) <==> m in s || m == n
  {
    assert InsertAt(s, j, n) == s[..j] + [n] + s[j..] && s == s[..j] + s[j..];
  }

  lemma RemoveMembers(s: seq<Node>, j: nat)
    requires j < |s|
    ensures forall m :: m in s && m != s[j] ==> m in RemoveAt(s, j)
    ensures forall m :: m in RemoveAt(s, j) ==> m in s
  {
    assert s == s[..j] + [s[j]] + s[j + 1..];
  }

  lemma SmallBucket(order: nat, size: u32)
    requires order <= 28 && size == Pow2(order)
    ensures size <= 0x1000_0000
  {
    Pow2Monotone(order, 28);
    Pow2At28();
  }

  lemma Pow2At28()
    ensures Pow2(28) == 0x1000_0000
  {
    assert Pow2(14) == 0x4000;
    Pow2Add(14, 14);
  }

  lemma SmallQuotient(n: nat, d: nat)
    requires d > 0 && n / d <= 10
    ensures n < 11 * d
  {
    assert n == d * (n / d) + n % d;
    assert d * (n / d) <= d * 10;
  }

  /** A table about to double is well below its largest size. */
  lemma RoomToGrow(order: nat, size: u32, count: u32)
    requires order <= 28 && size == Pow2(order) && count <= MSB && count / size > 10
    ensures order <= 27 && size <= 0x800_0000
  {
    QuotientBound(count, size, 11);
    Pow2At28();
    Pow2Monotone(if order < 28 then order + 1 else order, 28);
    assert order < 28 ==> Pow2(order + 1) == 2 * Pow2(order);
  }

  lemma QuotientBound(n: nat, d: nat, q: nat)
    requires d > 0 && n / d >= q
    ensures n >= q * d
  {
    assert n == d * (n / d) + n % d;
    assert d * (n / d) >= d * q;
  }

  /** A bucket and all its ancestors have been created. */
  ghost predicate Rooted(buckets: seq<Node?>, b: u32)
    requires b < |buckets|
    decreases b
  {
    buckets[b] != null && (b > 0 ==> (ParentIndex(b); Rooted(buckets, GetParent(b))))
  }

  lemma {:induction false} RootedKept(bs: seq<Node?>, bs': seq<Node?>, b: u32)
    requires b < |bs| <= |bs'| && Rooted(bs, b)
    requires forall c :: 0 <= c < |bs| && bs[c] != null ==> bs'[c] != null
    ensures Rooted(bs', b)
    decreases b
  {
    hide GetParent;
    if b > 0 {
      ParentIndex(b);
      RootedKept(bs, bs', GetParent(b));
    }
  }

  class LockFreeHashTable {
    const list: LockFreeList
    var buckets: seq<Node?>
    var count: u32
    var size: u32
    ghost var order: nat   // size is 2^order

    const LOAD_FACTOR: u32 := 10

    /** A bucket that has been created points at its dummy node, which is listed, and
        so do all its ancestors. */
    ghost predicate BucketOk(b: nat)
      requires b < |buckets|
      reads this`buckets, list
    {
      buckets[b] != null ==>
        b < MSB && buckets[b] in list.chain && buckets[b].data == DummyKey(b) && Rooted(buckets, b)
    }

    ghost predicate Shape()
      reads this`buckets, this`size, this`order, list, list.chain
    {
      && list.Valid()
      && 1 <= order <= 28 && size == Pow2(order) && |buckets| == size
      && forall b {:trigger BucketOk(b)} :: 0 <= b < |buckets| ==> BucketOk(b)
    }

    ghost predicate Valid()
      reads this, list, list.chain
    {
      Shape() && count == |Table()| && count < 11 * size
    }

    /** The map the table stands for. */
    ghost function Table(): map<int, int>
      reads list
    {
      Contents(list.chain)
    }

    static method KeyOfRegular(data: u32) returns (key: u32)
      ensures key == RegularKey(data)
    {
      ProgramKeys(data);
      key := ReverseRegularKey(data);
    }

    static method KeyOfDummy(b: u32) returns (key: u32)
      ensures key == DummyKey(b)
    {
      ProgramKeys(b);
      key := ReverseDummyKey(b);
    }

    static method Parent(b: u32) returns (p: u32)
      requires b > 0
      ensures p == GetParent(b) < b && DummyKey(p) < DummyKey(b)
    {
      hide DummyKey, GetParent, TopBit, Pow2;
      ParentIndex(b);
      ParentDummy(b);
      p := GetParent(b);
    }

    constructor ()
      ensures Valid() && fresh(list) && fresh(list.chain) && Table() == map[0 := 0] && size == 2
    {
      hide RegularKey, DummyKey, Contents, Rooted;
      list := new LockFreeList();
      count := 0;
      size := 2;
      order := 1;
      buckets := [null, null];
      new;
      NoContents(list.chain);
      var ok := InsertKey(0, 0);
    }

    /** initialize_bucket: creates a bucket's missing ancestors, then the bucket, and
        changes neither the map nor any bucket that was there. */
    method InitializeBucket(b: u32)
      requires Shape() && b < size && buckets[b] == null
      modifies this`buckets, list, list.chain
      ensures Shape() && Rooted(buckets, b)
      ensures Table() == old(Table()) && |buckets| == |old(buckets)|
      ensures forall c :: 0 <= c < |buckets| && old(buckets)[c] != null ==> buckets[c] == old(buckets)[c]
      ensures forall n :: n in old(list.chain) ==> n in list.chain
      ensures forall i :: 0 <= i < |list.chain| ==> list.chain[i] in old(list.chain) || fresh(list.chain[i])
      decreases b
    {
      hide RegularKey, DummyKey, Contents, Pow2, Mirror, GetParent;
      var parent: u32 := 0;
      if b != 0 {
        parent := Parent(b);
        if buckets[parent] == null {
          InitializeBucket(parent);
        }
      }
      AddDummy(b, parent);
    }

    /** The last two lines of initialize_bucket: insert the dummy, record it. */
    method AddDummy(b: u32, parent: u32)
      requires Shape() && b < size
      requires if b == 0 then parent == 0 && buckets[0] == null
               else parent == GetParent(b) < b && DummyKey(parent) < DummyKey(b) && buckets[parent] != null
      modifies this`buckets, list, list.chain
      ensures Shape() && Rooted(buckets, b)
      ensures Table() == old(Table()) && |buckets| == |old(buckets)|
      ensures forall c :: 0 <= c < |buckets| && c != b ==> buckets[c] == old(buckets)[c]
      ensures forall n :: n in old(list.chain) ==> n in list.chain
      ensures forall i :: 0 <= i < |list.chain| ==> list.chain[i] in old(list.chain) || fresh(list.chain[i])
    {
      hide RegularKey, DummyKey, Contents, Pow2, Mirror, GetParent;
      SmallBucket(order, size);
      assert BucketOk(parent);
      var there := LinkDummy(b, buckets[parent]);
      ghost var before := buckets;
      buckets := buckets[b := there];
      forall c | 0 <= c < |buckets|
        ensures BucketOk(c)
      {
        assert old(BucketOk(c));
        if c == b {
          if b > 0 {
            RootedKept(before, buckets, parent);
          }
        } else if buckets[c] != null {
          RootedKept(before, buckets, c);
        }
      }
      assert BucketOk(b);
    }

    method LinkDummy(b: u32, start: Node?) returns (there: Node)
      requires list.Valid() && b < MSB && list.StartOk(start, DummyKey(b))
      modifies list, list.chain
      ensures list.Valid() && Table() == old(Table())
      ensures there in list.chain && there.data == DummyKey(b)
      ensures forall n :: n in old(list.chain) ==> n in list.chain
      ensures forall i :: 0 <= i < |list.chain| ==> list.chain[i] in old(list.chain) || fresh(list.chain[i])
    {
      hide RegularKey, DummyKey, Contents, Mirror;
      var key := KeyOfDummy(b);
      var unset: int := *;
      var dummy := new Node(key, unset);
      ghost var was := list.chain;
      Parity(0, b);
      var ok, node, j := list.Insert(dummy, start);
      if ok {
        ContentsDummy(was, j, dummy);
        InsertMembers(was, j, dummy);
      }
      there := node;
    }

    /** The first lines of every operation: the key's bucket, created if need be, which
        is then a place from which the list may be searched for the key. */
    method BucketFor(data: u32) returns (bucket: u32)
      requires Valid()
      modifies this`buckets, list, list.chain
      ensures Valid() && Table() == old(Table()) && size == old(size)
      ensures bucket < |buckets| && list.StartOk(buckets[bucket], RegularKey(data))
      ensures forall i :: 0 <= i < |list.chain| ==> list.chain[i] in old(list.chain) || fresh(list.chain[i])
    {
      hide RegularKey, DummyKey, Contents, Rooted, Pow2;
      bucket := data % size;
      if buckets[bucket] == null {
        InitializeBucket(bucket);
      }
      assert BucketOk(bucket);
      BucketRange(data, bucket, order);
    }

    /** insertKey: binds the key unless it is bound, and never overwrites. */
    method InsertKey(data: u32, value: int) returns (ok: bool)
      requires Valid()
      modifies this, list, list.chain
      ensures Valid()
      ensures ok <==> data % MSB !in old(Table())
      ensures Table() == if ok then old(Table())[data % MSB := value] else old(Table())
      ensures size == if ok && |Table()| / old(size) > 10 then 2 * old(size) else old(size)
      ensures forall i :: 0 <= i < |list.chain| ==> list.chain[i] in old(list.chain) || fresh(list.chain[i])
    {
      hide RegularKey, DummyKey, Contents, Rooted, Pow2;
      var bucket := BucketFor(data);
      var key := KeyOfRegular(data);
      var node := new Node(key, value);
      ok := LinkRegular(data, node, buckets[bucket]);
      if !ok {
        return;
      }
      CountOneMore();
    }

    /** The tail of insertKey: one more key is counted, and when there are more than
        LOAD_FACTOR keys a bucket the table doubles. */
    method CountOneMore()
      requires Shape() && count + 1 == |Table()| && count < 11 * size
      modifies this`count, this`buckets, this`size, this`order
      ensures Valid()
      ensures size == if |Table()| / old(size) > 10 then 2 * old(size) else old(size)
    {
      hide RegularKey, DummyKey, Contents, Rooted, Pow2;
      ContentsSize(list.chain);
      var csize := size;
      count := count + 1;
      if count / csize > LOAD_FACTOR {
        RoomToGrow(order, size, count);
        QuotientBound(count, size, 11);
        Grow();
      } else {
        SmallQuotient(count, csize);
      }
    }

    method LinkRegular(data: u32, node: Node, start: Node?) returns (ok: bool)
      requires Shape() && node.data == RegularKey(data) && node !in list.chain && list.StartOk(start, node.data)
      modifies list, list.chain, node`next
      ensures Shape()
      ensures ok <==> data % MSB !in old(Table())
      ensures Table() == if ok then old(Table())[data % MSB := node.value] else old(Table())
      ensures forall i :: 0 <= i < |list.chain| ==> list.chain[i] in old(list.chain) || list.chain[i] == node
    {
      hide RegularKey, DummyKey, Contents, Rooted, Pow2;
      ContentsHas(list.chain, data);
      ghost var was := list.chain;
      var linked, there, j := list.Insert(node, start);
      if linked {
        ContentsRegular(was, j, node, data);
        InsertMembers(was, j, node);
      }
      assert forall b {:trigger BucketOk(b)} :: 0 <= b < |buckets| ==> old(BucketOk(b));
      return linked;
    }

    /** The doubling in insertKey: as many empty buckets again. */
    method Grow()
      requires Shape() && order <= 27 && size <= 0x800_0000
      modifies this`buckets, this`size, this`order
      ensures Shape() && size == 2 * old(size)
    {
      hide RegularKey, DummyKey, Contents, Mirror, GetParent;
      ghost var was := buckets;
      var i := 0;
      while i < size
        invariant size == old(size) && order == old(order) && 0 <= i <= size && |buckets| == size + i
        invariant buckets[..size] == was
        invariant forall b :: size <= b < size + i ==> buckets[b] == null
      {
        buckets := buckets + [null];
        i := i + 1;
      }
      size := 2 * size;
      order := order + 1;
      assert size == Pow2(order) && |buckets| == size;
      forall b | 0 <= b < |buckets|
        ensures BucketOk(b)
      {
        if b < |was| && was[b] != null {
          assert was[b] == buckets[b] && old(BucketOk(b));
          RootedKept(was, buckets, b);
        }
      }
    }

    /** removeKey: unbinds the key if it is bound. */
    method RemoveKey(data: u32) returns (ok: bool)
      requires Valid()
      modifies this, list, list.chain
      ensures Valid()
      ensures ok <==> data % MSB in old(Table())
      ensures Table() == old(Table()) - {data % MSB}
      ensures forall i :: 0 <= i < |list.chain| ==> list.chain[i] in old(list.chain) || fresh(list.chain[i])
    {
      hide LockFreeHashTable.Shape, LockFreeHashTable.Table;
      hide BucketOk;
      hide RegularKey, DummyKey, Contents, Rooted, Pow2;
      var bucket := BucketFor(data);
      ok := UnlinkRegular(data, buckets[bucket]);
      if !ok {
        return;
      }
      RemovedSize(old(Table()), data % MSB);
      count := count - 1;
    }

    method UnlinkRegular(data: u32, start: Node?) returns (ok: bool)
      requires Shape() && list.StartOk(start, RegularKey(data))
      modifies list, list.chain
      ensures Shape()
      ensures ok <==> data % MSB in old(Table())
      ensures Table() == old(Table()) - {data % MSB}
      ensures forall i :: 0 <= i < |list.chain| ==> list.chain[i] in old(list.chain)
    {
      hide RegularKey, DummyKey, Contents, Rooted, Pow2;
      ContentsHas(list.chain, data);
      ghost var was := list.chain;
      var key := KeyOfRegular(data);
      var unlinked, j := list.Remove(key, start);
      if unlinked {
        ContentsRemove(was, j, data);
        RemoveMembers(was, j);
      }
      forall b | 0 <= b < |buckets|
        ensures BucketOk(b)
      {
        assert old(BucketOk(b));
        if buckets[b] != null {
          Parity(data, b);
        }
      }
      return unlinked;
    }

    /** findKey: whether the key is bound, and to what. */
    method FindKey(data: u32) returns (found: bool, value: int)
      requires Valid()
      modifies this`buckets, list, list.chain
      ensures Valid() && Table() == old(Table())
      ensures found <==> data % MSB in Table()
      ensures found ==> value == Table()[data % MSB]
      ensures forall i :: 0 <= i < |list.chain| ==> list.chain[i] in old(list.chain) || fresh(list.chain[i])
    {
      hide RegularKey, DummyKey, Contents, Rooted, Pow2;
      var bucket := BucketFor(data);
      var key := KeyOfRegular(data);
      found, value := list.Lookup(key, buckets[bucket]);
      ContentsHas(list.chain, data);
    }

    /** getCount: the number of bound keys. */
    method GetCount() returns (n: u32)
      requires Valid()
      ensures n == |Table()|
    {
      n := count;
    }
  }

  // --------------------------------------------------------- whole sequential runs

  datatype Call = Insert(key: u32, value: int) | Remove(key: u32) | Find(key: u32) | Count

  /** What a call reports: true or false, with the value found, or the count. */
  datatype Answer = Said(yes: bool) | Value(found: bool, value: int) | Counted(n: int)

  function MapAfter(m: map<int, int>, c: Call): map<int, int> {
    match c
    case Insert(k, v) => if k % 0x8000_0000 in m then m else m[k % 0x8000_0000 := v]
    case Remove(k) => m - {k % 0x8000_0000}
    case Find(_) | Count => m
  }

  /** The answers a map keyed by the low 31 bits gives. */
  predicate Answers(m: map<int, int>, c: Call, a: Answer) {
    match c
    case Insert(k, _) => a == Said(k % 0x8000_0000 !in m)
    case Remove(k) => a == Said(k % 0x8000_0000 in m)
    case Find(k) => a.Value? && (a.found <==> k % 0x8000_0000 in m) && (a.found ==> a.value == m[k % 0x8000_0000])
    case Count => a == Counted(|m|)
  }

  function MapOver(m: map<int, int>, calls: seq<Call>): map<int, int> {
    if |calls| == 0 then m else MapAfter(MapOver(m, calls[..|calls| - 1]), calls[|calls| - 1])
  }

  /** Any sequence of calls on a fresh table is answered as by a map that starts as {0 -> 0}. */
  method RunCalls(calls: seq<Call>) returns (answers: seq<Answer>)
    ensures |answers| == |calls|
    ensures forall i :: 0 <= i < |calls| ==> Answers(MapOver(map[0 := 0], calls[..i]), calls[i], answers[i])
  {
    hide Contents, MapOver;
    var table := new LockFreeHashTable();
    answers := [];
    assert MapOver(map[0 := 0], calls[..0]) == map[0 := 0] by { MapOverStart(map[0 := 0], calls); }
    for k := 0 to |calls|
      invariant table.Valid() && fresh(table) && fresh(table.list)
      invariant forall i :: 0 <= i < |table.list.chain| ==> fresh(table.list.chain[i])
      invariant |answers| == k && table.Table() == MapOver(map[0 := 0], calls[..k])
      invariant forall i :: 0 <= i < k ==> Answers(MapOver(map[0 := 0], calls[..i]), calls[i], answers[i])
    {
      MapOverStep(map[0 := 0], calls, k);
      var a := OneCall(table, calls[k]);
      answers := answers + [a];
    }
  }

  method OneCall(table: LockFreeHashTable, c: Call) returns (a: Answer)
    requires table.Valid()
    modifies table, table.list, table.list.chain
    ensures table.Valid() && table.Table() == MapAfter(old(table.Table()), c)
    ensures Answers(old(table.Table()), c, a)
    ensures forall i :: 0 <= i < |table.list.chain| ==>
            table.list.chain[i] in old(table.list.chain) || fresh(table.list.chain[i])
  {
    hide Contents;
    match c {
      case Insert(k, v) =>
        var ok := table.InsertKey(k, v);
        a := Said(ok);
      case Remove(k) =>
        var ok := table.RemoveKey(k);
        a := Said(ok);
      case Find(k) =>
        var found, value := table.FindKey(k);
        a := Value(found, value);
      case Count =>
        var n := table.GetCount();
        a := Counted(n);
    }
  }

  lemma MapOverStart(m: map<int, int>, calls: seq<Call>)
    ensures MapOver(m, calls[..0]) == m
  {
  }

  lemma MapOverStep(m: map<int, int>, calls: seq<Call>, k: nat)
    requires k < |calls|
    ensures MapOver(m, calls[..k + 1]) == MapAfter(MapOver(m, calls[..k]), calls[k])
  {
    assert calls[..k + 1][..k] == calls[..k];
  }
}
