// Short client programs that drive the list through its public operations
// and pin down what they return.
module ListScenarios {
  import opened LinkedList

  /** Adds the values of `s` at the tail of `l`, one after the other. */
  method AddAllToTail(l: DoublyLinkedList, s: seq<int>)
    requires l.Valid()
    modifies l, l.Nodes
    ensures l.Valid() && l.Contents == old(l.Contents) + s
    ensures forall n :: n in l.Nodes ==> n in old(l.Nodes) || fresh(n)
    decreases |s|
  {
    if s != [] {
      l.AddToTail(s[0]);
      AddAllToTail(l, s[1..]);
      assert [s[0]] + s[1..] == s;
    }
  }

  /** A fresh list holding `s`, built by adding each value at the tail. */
  method FromSeq(s: seq<int>) returns (l: DoublyLinkedList)
    ensures fresh(l) && l.Valid() && l.Contents == s
    ensures forall i :: 0 <= i < |l.Nodes| ==> fresh(l.Nodes[i])
  {
    l := new DoublyLinkedList(null);
    AddAllToTail(l, s);
    assert forall i :: 0 <= i < |l.Nodes| ==> l.Nodes[i] in l.Nodes;
  }

  /** Removes every value from the head, returning them in the order removed. */
  method Drain(l: DoublyLinkedList) returns (vs: seq<int>)
    requires l.Valid()
    modifies l, l.Nodes
    ensures l.Valid() && l.Contents == []
    ensures vs == old(l.Contents)
    decreases |l.Contents|
  {
    var n := l.Len();
    if n == 0 {
      return [];
    }
    var v := l.RemoveFromHead();
    var rest := Drain(l);
    vs := [v] + rest;
  }

  /** Splicing a node in after `n` and unlinking it again restores the links around `n`. */
  method InsertAfterThenDelete(n: ListNode, v: int)
    requires n.next != n
    modifies n, n.next
    ensures n.next == old(n.next) && n.prev == old(n.prev)
    ensures old(n.next) != null ==> old(n.next).prev == n && old(n.next).next == old(n.next.next)
  {
    n.InsertAfter(v);
    var added := n.next;
    added.Delete();
  }

  /** Splicing a node in before `n` and unlinking it again restores the links around `n`. */
  method InsertBeforeThenDelete(n: ListNode, v: int)
    requires n.prev != n
    modifies n, n.prev
    ensures n.next == old(n.next) && n.prev == old(n.prev)
    ensures old(n.prev) != null ==> old(n.prev).next == n && old(n.prev).prev == old(n.prev.prev)
  {
    n.InsertBefore(v);
    var added := n.prev;
    added.Delete();
  }

  /** On an empty list, a value added at the tail comes back from the head. */
  method TailThenHead(v: int) returns (r: int, len: int)
    ensures r == v && len == 0
  {
    var l := new DoublyLinkedList(null);
    l.AddToTail(v);
    r := l.RemoveFromHead();
    len := l.Len();
  }

  /** Adding at the head and removing from the head undoes the addition. */
  method HeadRoundTrip(l: DoublyLinkedList, v: int) returns (r: int)
    requires l.Valid()
    modifies l, l.Nodes
    ensures l.Valid()
    ensures r == v && l.Contents == old(l.Contents)
  {
    l.AddToHead(v);
    r := l.RemoveFromHead();
  }

  /** Adding at the tail and removing from the tail undoes the addition. */
  method TailRoundTrip(l: DoublyLinkedList, v: int) returns (r: int)
    requires l.Valid()
    modifies l, l.Nodes
    ensures l.Valid()
    ensures r == v && l.Contents == old(l.Contents)
  {
    l.AddToTail(v);
    r := l.RemoveFromTail();
  }

  /** Deleting the interior node of 2, 1, 3 returns 1 and leaves 2, 3. */
  method DeleteInterior() returns (deleted: Option<int>, rest: seq<int>)
    ensures deleted == Some(1) && rest == [2, 3]
  {
    var l := FromSeq([2, 1, 3]);
    var one := l.head.next;
    assert one == l.Nodes[1];
    deleted := l.Delete(one);
    rest := Drain(l);
  }

  /** Deleting the tail of 4, 8 hands back no value and leaves 4. */
  method DeleteTail() returns (deleted: Option<int>, rest: seq<int>)
    ensures deleted == None && rest == [4]
  {
    var l := FromSeq([4, 8]);
    deleted := l.Delete(l.tail);
    rest := Drain(l);
  }

  /** The deletion that always returns the value gives back 8 for the same tail. */
  method DeleteTailReturningValue() returns (deleted: Option<int>, rest: seq<int>)
    ensures deleted == Some(8) && rest == [4]
  {
    var l := FromSeq([4, 8]);
    deleted := l.DeleteReturningValue(l.tail);
    rest := Drain(l);
  }

  /** Deleting the head of 4, 8 returns 4 and leaves 8. */
  method DeleteHead() returns (deleted: Option<int>, rest: seq<int>)
    ensures deleted == Some(4) && rest == [8]
  {
    var l := FromSeq([4, 8]);
    deleted := l.Delete(l.head);
    rest := Drain(l);
  }

  /** Deleting the only node returns its value and empties the list. */
  method DeleteOnly() returns (deleted: Option<int>, len: int)
    ensures deleted == Some(6) && len == 0
  {
    var l := FromSeq([6]);
    deleted := l.Delete(l.head);
    len := l.Len();
  }

  /** Deleting from an empty list changes nothing and returns no value. */
  method DeleteFromEmpty() returns (deleted: Option<int>, len: int)
    ensures deleted == None && len == 0
  {
    var l := new DoublyLinkedList(null);
    var stray := new ListNode(6, null, null);
    deleted := l.Delete(stray);
    len := l.Len();
  }

  /** Moving the last node of 1, 2, 3 to the front gives 3, 1, 2. */
  method MoveLastToFront() returns (vs: seq<int>)
    ensures vs == [3, 1, 2]
  {
    var l := FromSeq([1, 2, 3]);
    l.MoveToFront(l.tail);
    vs := Drain(l);
  }

  /** Moving the first node of 1, 2, 3 to the end gives 2, 3, 1. */
  method MoveFirstToEnd() returns (vs: seq<int>)
    ensures vs == [2, 3, 1]
  {
    var l := FromSeq([1, 2, 3]);
    l.MoveToEnd(l.head);
    vs := Drain(l);
  }

  /** The maximum of 3, 7, 2, 9, 4 is 9. */
  method MaxOfFive() returns (m: int)
    ensures m == 9
  {
    var l := FromSeq([3, 7, 2, 9, 4]);
    m := l.GetMax();
    assert l.Contents[3] <= m;
  }

  /** A list built from one detached node reports that node's value. */
  method MaxOfSingleton() returns (m: int, len: int)
    ensures m == 5 && len == 1
  {
    var node := new ListNode(5, null, null);
    var l := new DoublyLinkedList(node);
    m := l.GetMax();
    len := l.Len();
  }

  /**
   * On -3, -1 the scan seeded with 0 answers 0, a value that is not in the
   * list; the scan seeded from the head answers -1.
   */
  method MaxOfNegatives() returns (asWritten: int, fromHead: int)
    ensures asWritten == 0 && fromHead == -1
  {
    var l := new DoublyLinkedList(null);
    l.AddToTail(-3);
    l.AddToTail(-1);
    assert l.Contents == [-3, -1];
    asWritten := l.GetMax();
    fromHead := l.GetMaxFromHead();
  }
}
