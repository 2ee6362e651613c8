// A hand-rolled doubly linked list of integers: nodes that splice
// themselves in and out, and a list object that caches its head, its tail
// and its length.
module LinkedList {
  import opened ListSpec

  datatype Option<T> = None | Some(value: T)

  /** One link of the chain: a value and optional references to its neighbours. */
  class ListNode {
    const value: int
    var prev: ListNode?
    var next: ListNode?

    constructor (value: int, prev: ListNode?, next: ListNode?)
      ensures this.value == value && this.prev == prev && this.next == next
    {
      this.value := value;
      this.prev := prev;
      this.next := next;
    }

    /**
     * Puts a new node holding `v` directly after this one and links it to
     * this node and to the old successor, if there was one.
     */
    method InsertAfter(v: int)
      modifies this, next
      ensures fresh(next) && next.value == v && next.prev == this && next.next == old(next)
      ensures old(next) != this ==> prev == old(prev)
      ensures old(next) != null ==> old(next).prev == next
      ensures old(next) != null && old(next) != this ==> old(next).next == old(next.next)
    {
      var currentNext := next;
      next := new ListNode(v, this, currentNext);
      if currentNext != null {
        currentNext.prev := next;
      }
    }

    /**
     * Puts a new node holding `v` directly before this one and links it to
     * this node and to the old predecessor, if there was one.
     */
    method InsertBefore(v: int)
      modifies this, prev
      ensures fresh(prev) && prev.value == v && prev.next == this && prev.prev == old(prev)
      ensures old(prev) != this ==> next == old(next)
      ensures old(prev) != null ==> old(prev).next == prev
      ensures old(prev) != null && old(prev) != this ==> old(prev).prev == old(prev.prev)
    {
      var currentPrev := prev;
      prev := new ListNode(v, currentPrev, this);
      if currentPrev != null {
        currentPrev.next := prev;
      }
    }

    /**
     * Links this node's neighbours to each other; a neighbour without a
     * partner on the other side gets that link cleared. The node's own
     * fields are left as they were.
     */
    method Delete()
      modifies prev, next
      ensures prev == old(prev) && next == old(next)
      ensures old(prev) != null ==> old(prev).next == old(next)
      ensures old(next) != null ==> old(next).prev == old(prev)
      ensures old(prev) != null && old(prev) != old(next) ==> old(prev).prev == old(prev.prev)
      ensures old(next) != null && old(next) != old(prev) ==> old(next).next == old(next.next)
    {
      if prev != null {
        prev.next := next;
      }
      if next != null {
        next.prev := prev;
      }
    }
  }

  /** The position of `n` in `s`. */
  ghost function IndexOf(s: seq<ListNode>, n: ListNode): (i: nat)
    requires n in s
    ensures i < |s| && s[i] == n
  {
    if s[0] == n then 0 else 1 + IndexOf(s[1..], n)
  }

  /**
   * `ns` is a chain of distinct nodes whose adjacent pairs link to each other
   * in both directions; the first has no predecessor and the last no successor.
   */
  ghost predicate Chain(ns: seq<ListNode>)
    reads ns
  {
    (ns != [] ==> ns[0].prev == null && ns[|ns| - 1].next == null) &&
    (forall i {:trigger ns[i].next} :: 0 <= i < |ns| - 1 ==> ns[i].next == ns[i + 1]) &&
    (forall i {:trigger ns[i].prev} :: 0 < i < |ns| ==> ns[i].prev == ns[i - 1]) &&
    Distinct(ns)
  }

  /** The node at position `i` of `ns`. */
  ghost function NodeAt(ns: seq<ListNode>, i: nat): (n: ListNode)
    requires i < |ns|
    ensures n in ns
  {
    ns[i]
  }

  /**
   * No node occurs twice in `ns`. (Stated through `NodeAt`, so that the
   * verifier compares two positions only where a proof names them.)
   */
  ghost predicate Distinct(ns: seq<ListNode>) {
    forall i: nat, j: nat :: i < j < |ns| ==> NodeAt(ns, i) != NodeAt(ns, j)
  }

  /** In a distinct sequence, equal nodes sit at equal positions. */
  lemma DistinctAt(ns: seq<ListNode>, i: nat, j: nat)
    requires Distinct(ns) && i < |ns| && j < |ns|
    ensures ns[i] == ns[j] ==> i == j
  {
    if i < j {
      assert NodeAt(ns, i) != NodeAt(ns, j);
    } else if j < i {
      assert NodeAt(ns, j) != NodeAt(ns, i);
    }
  }

  /** A node not yet in a distinct sequence can be put at its front. */
  lemma DistinctPrepend(n: ListNode, ns: seq<ListNode>)
    requires Distinct(ns) && n !in ns
    ensures Distinct([n] + ns)
  {
    var s := [n] + ns;
    forall i: nat, j: nat | i < j < |s|
      ensures NodeAt(s, i) != NodeAt(s, j)
    {
      if i > 0 {
        DistinctAt(ns, i - 1, j - 1);
      }
    }
  }

  /** A node not yet in a distinct sequence can be put at its end. */
  lemma DistinctAppend(ns: seq<ListNode>, n: ListNode)
    requires Distinct(ns) && n !in ns
    ensures Distinct(ns + [n])
  {
    var s := ns + [n];
    forall i: nat, j: nat | i < j < |s|
      ensures NodeAt(s, i) != NodeAt(s, j)
    {
      if j < |ns| {
        DistinctAt(ns, i, j);
      }
    }
  }

  /** Taking a node out of a distinct sequence leaves it distinct. */
  lemma DistinctRemoveAt(ns: seq<ListNode>, k: nat)
    requires k < |ns| && Distinct(ns)
    ensures Distinct(RemoveAt(ns, k))
  {
    var rs := RemoveAt(ns, k);
    forall i: nat, j: nat | i < j < |rs|
      ensures NodeAt(rs, i) != NodeAt(rs, j)
    {
      var i' := if i < k then i else i + 1;
      var j' := if j < k then j else j + 1;
      DistinctAt(ns, i', j');
    }
  }

  /**
   * A node with no predecessor that links to the front of a chain, and is
   * linked back from it, extends the chain at the front.
   */
  lemma PrependKeepsChain(n: ListNode, ns: seq<ListNode>)
    requires Distinct([n] + ns) && n.prev == null
    requires ns == [] ==> n.next == null
    requires ns != [] ==> n.next == ns[0] && ns[0].prev == n && ns[|ns| - 1].next == null
    requires forall i {:trigger ns[i].next} :: 0 <= i < |ns| - 1 ==> ns[i].next == ns[i + 1]
    requires forall i {:trigger ns[i].prev} :: 0 < i < |ns| ==> ns[i].prev == ns[i - 1]
    ensures Chain([n] + ns)
  {
    var s := [n] + ns;
    forall i | 0 < i < |s| - 1
      ensures s[i].next == s[i + 1]
    {
      assert s[i] == ns[i - 1] && s[i + 1] == ns[i];
    }
    forall i | 1 < i < |s|
      ensures s[i].prev == s[i - 1]
    {
      assert s[i] == ns[i - 1] && s[i - 1] == ns[i - 2];
    }
  }

  /**
   * A node with no successor that the back of a chain links to, and that
   * links back to it, extends the chain at the back.
   */
  lemma AppendKeepsChain(ns: seq<ListNode>, n: ListNode)
    requires Distinct(ns + [n]) && n.next == null
    requires ns == [] ==> n.prev == null
    requires ns != [] ==> n.prev == ns[|ns| - 1] && ns[|ns| - 1].next == n && ns[0].prev == null
    requires forall i {:trigger ns[i].next} :: 0 <= i < |ns| - 1 ==> ns[i].next == ns[i + 1]
    requires forall i {:trigger ns[i].prev} :: 0 < i < |ns| ==> ns[i].prev == ns[i - 1]
    ensures Chain(ns + [n])
  {
    var s := ns + [n];
    forall i | 0 <= i < |s| - 2
      ensures s[i].next == s[i + 1]
    {
      assert s[i] == ns[i] && s[i + 1] == ns[i + 1];
    }
    forall i | 0 < i < |s| - 1
      ensures s[i].prev == s[i - 1]
    {
      assert s[i] == ns[i] && s[i - 1] == ns[i - 1];
    }
  }

  /**
   * Unlinking node `k` of a chain leaves a chain of the other nodes, in
   * order, when every other link still points where it did in the chain,
   * except the predecessor's forward link and the successor's backward
   * link, which now bypass node `k`.
   */
  lemma UnlinkKeepsChain(ns: seq<ListNode>, k: nat, pred: ListNode?, succ: ListNode?)
    requires k < |ns| && Distinct(ns)
    requires pred == (if k == 0 then null else ns[k - 1])
    requires succ == (if k + 1 == |ns| then null else ns[k + 1])
    requires forall i {:trigger ns[i].next} :: 0 <= i < |ns| - 1 && ns[i] != pred ==> ns[i].next == ns[i + 1]
    requires forall i {:trigger ns[i].prev} :: 0 < i < |ns| && ns[i] != succ ==> ns[i].prev == ns[i - 1]
    requires ns[0] != succ ==> ns[0].prev == null
    requires ns[|ns| - 1] != pred ==> ns[|ns| - 1].next == null
    requires pred != null ==> pred.next == succ
    requires succ != null ==> succ.prev == pred
    ensures Chain(RemoveAt(ns, k))
  {
    var rs := RemoveAt(ns, k);
    forall i | 0 <= i < |rs| - 1
      ensures rs[i].next == rs[i + 1]
    {
      if i + 1 < k {
        DistinctAt(ns, i, k - 1);
        assert rs[i] == ns[i] && rs[i + 1] == ns[i + 1];
      } else if i + 1 == k {
        assert rs[i] == ns[k - 1] && rs[i + 1] == ns[k + 1];
      } else {
        if k > 0 {
          DistinctAt(ns, i + 1, k - 1);
        }
        assert rs[i] == ns[i + 1] && rs[i + 1] == ns[i + 2];
      }
    }
    forall i | 0 < i < |rs|
      ensures rs[i].prev == rs[i - 1]
    {
      if i < k {
        if k + 1 < |ns| {
          DistinctAt(ns, i, k + 1);
        }
        assert rs[i] == ns[i] && rs[i - 1] == ns[i - 1];
      } else if i == k {
        assert rs[i] == ns[k + 1] && rs[i - 1] == ns[k - 1];
      } else {
        DistinctAt(ns, i + 1, k + 1);
        assert rs[i] == ns[i + 1] && rs[i - 1] == ns[i];
      }
    }
    if rs != [] {
      if k == 0 {
        assert rs[0] == ns[1] && ns[1] == succ;
      } else {
        if k + 1 < |ns| {
          DistinctAt(ns, 0, k + 1);
        }
        assert rs[0] == ns[0] && ns[0] != succ;
      }
      if k == |ns| - 1 {
        assert rs[|rs| - 1] == ns[k - 1] && ns[k - 1] == pred;
      } else {
        if k > 0 {
          DistinctAt(ns, |ns| - 1, k - 1);
        }
        assert rs[|rs| - 1] == ns[|ns| - 1] && ns[|ns| - 1] != pred;
      }
    }
    DistinctRemoveAt(ns, k);
  }

  /** A list that owns a chain of nodes and keeps head, tail and length in step with it. */
  class DoublyLinkedList {
    var head: ListNode?
    var tail: ListNode?
    var length: int

    // The chain from head to tail, and the values it holds.
    ghost var Nodes: seq<ListNode>
    ghost var Contents: seq<int>

    ghost predicate Valid()
      reads this, Nodes
    {
      length == |Nodes| == |Contents| &&
      (head == null <==> Nodes == []) &&
      (tail == null <==> Nodes == []) &&
      (Nodes != [] ==> head == Nodes[0] && tail == Nodes[|Nodes| - 1]) &&
      Chain(Nodes) &&
      (forall i :: 0 <= i < |Nodes| ==> Nodes[i].value == Contents[i])
    }

    /** An empty list, or a list of the one given node when it has no neighbours. */
    constructor (node: ListNode?)
      requires node != null ==> node.prev == null && node.next == null
      ensures Valid()
      ensures node == null ==> Nodes == [] && Contents == []
      ensures node != null ==> Nodes == [node] && Contents == [node.value]
    {
      head := node;
      tail := node;
      length := if node != null then 1 else 0;
      Nodes := if node != null then [node] else [];
      Contents := if node != null then [node.value] else [];
    }

    /** The cached length, which is the number of nodes in the chain. */
    method Len() returns (n: int)
      requires Valid()
      ensures n == |Contents| == |Nodes|
    {
      n := length;
    }

    /** Prepends `value` in a new node, which becomes the head. */
    method AddToHead(value: int)
      requires Valid()
      modifies this, Nodes
      ensures Valid()
      ensures fresh(head) && Nodes == [head] + old(Nodes)
      ensures Contents == [value] + old(Contents)
      ensures length == old(length) + 1
      ensures old(Nodes) == [] ==> tail == head
      ensures old(Nodes) != [] ==> tail == old(tail)
    {
      var newNode := new ListNode(value, null, null);
      ghost var ns := Nodes;
      DistinctPrepend(newNode, ns);
      Nodes := [newNode] + ns;
      Contents := [value] + Contents;
      length := length + 1;
      if head != null {
        newNode.next := head;
        head.prev := newNode;
        head := newNode;
      } else {
        head := newNode;
        tail := newNode;
      }
      PrependKeepsChain(newNode, ns);
    }

    /** Removes the head and returns the value it held. */
    method RemoveFromHead() returns (value: int)
      requires Valid() && Nodes != []
      modifies this, Nodes
      ensures Valid()
      ensures value == old(Contents[0])
      ensures Nodes == old(Nodes[1..]) && Contents == old(Contents[1..])
      ensures length == old(length) - 1
    {
      value := head.value;
      var _ := Delete(head);
    }

    /** Appends `value` in a new node, which becomes the tail. */
    method AddToTail(value: int)
      requires Valid()
      modifies this, Nodes
      ensures Valid()
      ensures fresh(tail) && Nodes == old(Nodes) + [tail]
      ensures Contents == old(Contents) + [value]
      ensures length == old(length) + 1
      ensures old(Nodes) == [] ==> head == tail
      ensures old(Nodes) != [] ==> head == old(head)
    {
      var newNode := new ListNode(value, null, null);
      ghost var ns := Nodes;
      DistinctAppend(ns, newNode);
      Nodes := ns + [newNode];
      Contents := Contents + [value];
      length := length + 1;
      if tail != null {
        tail.next := newNode;
        newNode.prev := tail;
        tail := newNode;
      } else {
        head := newNode;
        tail := newNode;
      }
      AppendKeepsChain(ns, newNode);
    }

    /** Removes the tail and returns the value it held. */
    method RemoveFromTail() returns (value: int)
      requires Valid() && Nodes != []
      modifies this, Nodes
      ensures Valid()
      ensures value == old(Contents[|Contents| - 1])
      ensures Nodes == old(Nodes[..|Nodes| - 1]) && Contents == old(Contents[..|Contents| - 1])
      ensures length == old(length) - 1
    {
      value := tail.value;
      var _ := Delete(tail);
    }

    /**
     * Unlinks `node` and puts a new node holding its value at the head. The
     * node that ends up at the front is a fresh object, not `node`.
     */
    method MoveToFront(node: ListNode)
      requires Valid() && node in Nodes
      modifies this, Nodes
      ensures Valid()
      ensures var k := IndexOf(old(Nodes), node);
        Contents == MovedToFront(old(Contents), k) &&
        Nodes == [head] + RemoveAt(old(Nodes), k)
      ensures fresh(head) && head.value == node.value
      ensures length == old(length)
    {
      var _ := Delete(node);
      AddToHead(node.value);
    }

    /**
     * Unlinks `node` and puts a new node holding its value at the tail. The
     * node that ends up at the end is a fresh object, not `node`.
     */
    method MoveToEnd(node: ListNode)
      requires Valid() && node in Nodes
      modifies this, Nodes
      ensures Valid()
      ensures var k := IndexOf(old(Nodes), node);
        Contents == MovedToEnd(old(Contents), k) &&
        Nodes == RemoveAt(old(Nodes), k) + [tail]
      ensures fresh(tail) && tail.value == node.value
      ensures length == old(length)
    {
      var _ := Delete(node);
      AddToTail(node.value);
    }

    /**
     * Unlinks `node` from the list. On an empty list nothing happens. The
     * result is the removed value, except when the node is the tail of a list
     * of two or more nodes: that branch does not hand the value back.
     */
    method Delete(node: ListNode) returns (r: Option<int>)
      requires Valid()
      requires Nodes == [] || node in Nodes
      modifies this, Nodes
      ensures Valid()
      ensures old(Nodes) == [] ==> Nodes == [] && Contents == [] && r == None
      ensures old(Nodes) != [] ==>
        var k := IndexOf(old(Nodes), node);
        Nodes == RemoveAt(old(Nodes), k) && Contents == RemoveAt(old(Contents), k) &&
        length == old(length) - 1
      ensures old(Nodes) != [] ==>
        r == if 2 <= old(|Nodes|) && node == old(tail) then None else Some(node.value)
      ensures old(|Nodes|) == 1 ==> head == null && tail == null
      ensures 2 <= old(|Nodes|) && node == old(head) ==> head == old(node.next) && tail == old(tail)
      ensures 2 <= old(|Nodes|) && node == old(tail) ==> tail == old(node.prev) && head == old(head)
      ensures node.prev == old(node.prev) && node.next == old(node.next)
    {
      if head == null {
        return None;
      }
      ghost var ns, vs := Nodes, Contents;
      ghost var k, n := IndexOf(ns, node), |ns|;
      ghost var pred := if k == 0 then null else ns[k - 1];
      ghost var succ := if k + 1 == n then null else ns[k + 1];
      DistinctAt(ns, k, 0);
      DistinctAt(ns, k, n - 1);
      DistinctAt(ns, 0, n - 1);
      length := length - 1;

      if head == tail {
        head := null;
        tail := null;
      }

      if node == head {
        assert k == 0 && 2 <= n && node.next == succ != null;
        head := node.next;
        head.prev := null;
      }

      if node == tail {
        assert k == n - 1 && 2 <= n && node.prev == pred != null;
        tail := node.prev;
        tail.next := null;
        r := None;
      } else {
        var value := node.value;
        assert node.prev == pred && node.next == succ;
        node.Delete();
        r := Some(value);
      }

      assert head == (if n == 1 then null else if k == 0 then ns[1] else ns[0]);
      assert tail == (if n == 1 then null else if k == n - 1 then ns[n - 2] else ns[n - 1]);
      Forget(ns, vs, k, pred, succ);
    }

    /**
     * Drops node `k` of `ns` from the ghost view, once head, tail, length
     * and the links around the node have been updated to bypass it.
     */
    ghost method Forget(ns: seq<ListNode>, vs: seq<int>, k: nat, pred: ListNode?, succ: ListNode?)
      requires k < |ns| == |vs| && Distinct(ns)
      requires forall i :: 0 <= i < |ns| ==> ns[i].value == vs[i]
      requires pred == (if k == 0 then null else ns[k - 1])
      requires succ == (if k + 1 == |ns| then null else ns[k + 1])
      requires forall i {:trigger ns[i].next} :: 0 <= i < |ns| - 1 && ns[i] != pred ==> ns[i].next == ns[i + 1]
      requires forall i {:trigger ns[i].prev} :: 0 < i < |ns| && ns[i] != succ ==> ns[i].prev == ns[i - 1]
      requires ns[0] != succ ==> ns[0].prev == null
      requires ns[|ns| - 1] != pred ==> ns[|ns| - 1].next == null
      requires pred != null ==> pred.next == succ
      requires succ != null ==> succ.prev == pred
      requires length == |ns| - 1
      requires head == (if |ns| == 1 then null else if k == 0 then ns[1] else ns[0])
      requires tail == (if |ns| == 1 then null else if k == |ns| - 1 then ns[|ns| - 2] else ns[|ns| - 1])
      modifies this
      ensures Valid()
      ensures Nodes == RemoveAt(ns, k) && Contents == RemoveAt(vs, k)
      ensures head == old(head) && tail == old(tail) && length == old(length)
    {
      UnlinkKeepsChain(ns, k, pred, succ);
      Nodes := RemoveAt(ns, k);
      Contents := RemoveAt(vs, k);
    }

    /**
     * `delete` with every branch handing back the removed value, the tail of
     * a longer list included.
     */
    method DeleteReturningValue(node: ListNode) returns (r: Option<int>)
      requires Valid()
      requires Nodes == [] || node in Nodes
      modifies this, Nodes
      ensures Valid()
      ensures old(Nodes) == [] ==> Nodes == [] && Contents == [] && r == None
      ensures old(Nodes) != [] ==>
        var k := IndexOf(old(Nodes), node);
        Nodes == RemoveAt(old(Nodes), k) && Contents == RemoveAt(old(Contents), k) &&
        r == Some(old(Contents)[k])
    {
      var empty := head == null;
      var _ := Delete(node);
      r := if empty then None else Some(node.value);
    }

    /**
     * The largest value, scanning from the head with an accumulator that
     * starts at 0; a single-node list returns its value without scanning.
     */
    method GetMax() returns (m: int)
      requires Valid() && Nodes != []
      ensures |Contents| == 1 ==> m == Contents[0]
      ensures 2 <= |Contents| ==> m == RunningMax(0, Contents)
      ensures forall i :: 0 <= i < |Contents| ==> Contents[i] <= m
      ensures m in Contents || (2 <= |Contents| && m == 0)
    {
      if head == tail {
        return head.value;
      }

      var node := head;
      var incr := 0;
      var value := 0;

      while incr < length
        invariant 0 <= incr <= length
        invariant incr < length ==> node == Nodes[incr]
        invariant value == RunningMax(0, Contents[..incr])
      {
        RunningMaxStep(0, Contents, incr);
        incr := incr + 1;
        if value < node.value {
          value := node.value;
        }
        node := node.next;
      }
      assert Contents[..incr] == Contents;
      m := value;
    }

    /**
     * `get_max` with the accumulator seeded from the head's value rather
     * than 0: the largest value of any non-empty list.
     */
    method GetMaxFromHead() returns (m: int)
      requires Valid() && Nodes != []
      ensures IsMaxOf(m, Contents)
    {
      if head == tail {
        return head.value;
      }

      var node := head;
      var incr := 0;
      var value := head.value;

      while incr < length
        invariant 0 <= incr <= length
        invariant incr < length ==> node == Nodes[incr]
        invariant value == RunningMax(Contents[0], Contents[..incr])
      {
        RunningMaxStep(Contents[0], Contents, incr);
        incr := incr + 1;
        if value < node.value {
          value := node.value;
        }
        node := node.next;
      }
      assert Contents[..incr] == Contents;
      HeadSeededMaxExact(Contents);
      m := value;
    }
  }
}
