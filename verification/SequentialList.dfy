/** The list of lock_free_list.hpp as one thread at a time sees it: linked node
    objects, traversals that may begin at a given node, insertion and removal by
    changing one `next` field. */
module SequentialList {
  import opened Words

  class Node {
    const data: u32
    const value: int   // set before the node is published and never again
    var next: Node?

    constructor (data: u32, value: int)
      ensures this.data == data && this.value == value && this.next == null
    {
      this.data := data;
      this.value := value;
      this.next := null;
    }
  }

  /** The data strictly ascend; they never change, so this is about the nodes alone. */
  ghost predicate AscendingNodes(s: seq<Node>) {
    forall i, j :: 0 <= i < j < |s| ==> s[i].data < s[j].data
  }

  function InsertAt<T>(s: seq<T>, j: nat, x: T): seq<T>
    requires j <= |s|
  {
    s[..j] + [x] + s[j..]
  }

  function RemoveAt<T>(s: seq<T>, j: nat): seq<T>
    requires j < |s|
  {
    s[..j] + s[j + 1..]
  }

  class LockFreeList {
    var head: Node?
    ghost var chain: seq<Node>   // the nodes in the order the links visit them

    /** The links visit exactly the nodes of `chain`. */
    ghost predicate Chained()
      reads this, chain
    {
      && head == (if |chain| > 0 then chain[0] else null)
      && (forall i {:trigger chain[i].next} :: 0 <= i < |chain| ==>
            chain[i].next == if i + 1 < |chain| then chain[i + 1] else null)
      && (forall i, j :: 0 <= i < j < |chain| ==> chain[i] != chain[j])
    }

    ghost predicate Ascending()
      reads this
    {
      AscendingNodes(chain)
    }

    ghost predicate Valid()
      reads this, chain
    {
      Chained() && Ascending()
    }

    ghost predicate Has(key: u32)
      reads this
    {
      exists i :: 0 <= i < |chain| && chain[i].data == key
    }

    /** A node to start from: NULL for the head, or a listed node below the key. */
    ghost predicate StartOk(start: Node?, key: u32)
      reads this
    {
      start != null ==> start in chain && start.data < key
    }

    constructor ()
      ensures Valid() && chain == []
    {
      head := null;
      chain := [];
    }

    /** lookupInternal: wherever the walk begins, it stops between the same two nodes. */
    method LookupInternal(start: Node?, key: u32) returns (found: bool, prev: Node?, cur: Node?, ghost j: nat)
      requires Valid() && StartOk(start, key)
      ensures j <= |chain|
      ensures forall i :: 0 <= i < j ==> chain[i].data < key
      ensures forall i :: j <= i < |chain| ==> chain[i].data >= key
      ensures cur == if j < |chain| then chain[j] else null
      ensures prev == if j > 0 then chain[j - 1] else null
      ensures found <==> Has(key)
      ensures found ==> j < |chain| && chain[j].data == key
    {
      prev := null;
      cur := if start == null then head else start;
      j := 0;
      if start != null {
        j :| 0 <= j < |chain| && chain[j] == start;
      }
      while cur != null
        invariant j <= |chain| && cur == if j < |chain| then chain[j] else null
        invariant forall i :: 0 <= i < j ==> chain[i].data < key
        invariant prev == (if j > 0 then chain[j - 1] else null) || (cur == start && start != null)
        decreases |chain| - j
      {
        if cur.data >= key {
          return cur.data == key, prev, cur, j;
        }
        prev := cur;
        cur := cur.next;
        j := j + 1;
      }
      found := false;
    }

    /** The store that publishes a node between prev and cur. */
    method LinkIn(node: Node, prev: Node?, cur: Node?, ghost j: nat)
      requires Chained() && node !in chain && j <= |chain|
      requires cur == if j < |chain| then chain[j] else null
      requires prev == if j > 0 then chain[j - 1] else null
      modifies this, prev, node`next
      ensures Chained() && chain == InsertAt(old(chain), j, node)
    {
      node.next := cur;
      if prev == null {
        head := node;
      } else {
        prev.next := node;
      }
      chain := InsertAt(chain, j, node);
    }

    /** The store that takes cur out from between prev and its successor. */
    method Bypass(prev: Node?, cur: Node, ghost j: nat)
      requires Chained() && j < |chain| && cur == chain[j]
      requires prev == if j > 0 then chain[j - 1] else null
      modifies this, prev
      ensures Chained() && chain == RemoveAt(old(chain), j)
    {
      if prev == null {
        head := cur.next;
      } else {
        prev.next := cur.next;
      }
      chain := RemoveAt(chain, j);
    }

    /** insert: the given node is linked in unless the key is there already, in which
        case the node that holds the key is handed back and nothing changes. */
    method Insert(node: Node, start: Node?) returns (ok: bool, there: Node, ghost j: nat)
      requires Valid() && StartOk(start, node.data) && node !in chain
      modifies this, chain, node`next
      ensures Valid()
      ensures ok <==> !old(Has(node.data))
      ensures there.data == node.data && there in chain
      ensures !ok ==> chain == old(chain)
      ensures ok ==> there == node && j <= |old(chain)| && chain == InsertAt(old(chain), j, node)
    {
      var found, prev, cur, at := LookupInternal(start, node.data);
      if found {
        return false, cur, at;
      }
      LinkIn(node, prev, cur, at);
      return true, node, at;
    }

    /** remove: the node with the key, if any, is unlinked. */
    method Remove(key: u32, start: Node?) returns (ok: bool, ghost j: nat)
      requires Valid() && StartOk(start, key)
      modifies this, chain
      ensures Valid()
      ensures ok <==> old(Has(key))
      ensures !ok ==> chain == old(chain)
      ensures ok ==> j < |old(chain)| && old(chain)[j].data == key && chain == RemoveAt(old(chain), j)
    {
      var found, prev, cur, at := LookupInternal(start, key);
      if !found {
        return false, at;
      }
      Bypass(prev, cur, at);
      return true, at;
    }

    /** lookup: whether the key is listed, and with which value. */
    method Lookup(key: u32, start: Node?) returns (found: bool, value: int)
      requires Valid() && StartOk(start, key)
      ensures found <==> Has(key)
      ensures found ==> exists i :: 0 <= i < |chain| && chain[i].data == key && chain[i].value == value
    {
      var isThere, prev, cur, j := LookupInternal(start, key);
      return isThere, if isThere then cur.value else 0;
    }

    /** checkIntegrity tells exactly whether the data strictly ascend along the links. */
    method CheckIntegrity() returns (ok: bool)
      requires Chained()
      ensures ok <==> Ascending()
    {
      if head == null {
        return true;
      }
      var previous := head.data;
      var cur := head.next;
      ghost var j := 1;
      while cur != null
        invariant 1 <= j <= |chain| && previous == chain[j - 1].data
        invariant cur == if j < |chain| then chain[j] else null
        invariant forall i, k :: 0 <= i < k < j ==> chain[i].data < chain[k].data
        decreases |chain| - j
      {
        if previous >= cur.data {
          return false;
        }
        previous := cur.data;
        cur := cur.next;
        j := j + 1;
      }
      return true;
    }
  }
}
