/**
 The singly linked lists that every registry of the program is made of. The spine of a
 list is the sequence of its nodes; `Chain` says that the links follow it.
 */
module Lists {

  class Node<T> {
    var value: T
    var next: Node?<T>

    constructor (value: T, next: Node?<T>)
      ensures this.value == value && this.next == next
    {
      this.value := value;
      this.next := next;
    }
  }

  /** The node at a position of the spine, null past the end. */
  ghost function At<T>(spine: seq<Node<T>>, i: nat): Node?<T> {
    if i < |spine| then spine[i] else null
  }

  ghost predicate Distinct<T>(spine: seq<Node<T>>) {
    forall i, j :: 0 <= i < j < |spine| ==> spine[i] != spine[j]
  }

  ghost predicate Chain<T>(head: Node?<T>, spine: seq<Node<T>>)
    reads spine`next
  {
    && Distinct(spine)
    && head == At(spine, 0)
    && forall i :: 0 <= i < |spine| ==> spine[i].next == At(spine, i + 1)
  }

  /** The payloads in list order. */
  ghost function Values<T>(spine: seq<Node<T>>): (vs: seq<T>)
    reads spine
    ensures |vs| == |spine|
    ensures forall i :: 0 <= i < |spine| ==> vs[i] == spine[i].value
  {
    seq(|spine|, i requires 0 <= i < |spine| reads spine => spine[i].value)
  }

  /** One link of a list. */
  lemma ChainAt<T>(head: Node?<T>, spine: seq<Node<T>>, i: nat)
    requires Chain(head, spine)
    ensures i < |spine| ==> spine[i].next == At(spine, i + 1)
    ensures head == At(spine, 0)
  {
  }

  lemma ChainDistinct<T>(head: Node?<T>, spine: seq<Node<T>>)
    requires Chain(head, spine)
    ensures Distinct(spine)
  {
  }

  /** A node put in front of a list. */
  lemma Pushed<T>(head: Node?<T>, spine: seq<Node<T>>, node: Node<T>)
    requires Chain(head, spine) && node !in spine && node.next == head
    ensures Chain(node, [node] + spine)
    ensures Values([node] + spine) == [node.value] + Values(spine)
  {
    var pushed := [node] + spine;
    forall i | 0 <= i < |pushed| ensures pushed[i].next == At(pushed, i + 1) {
      if i > 0 {
        assert pushed[i] == spine[i - 1];
      }
    }
  }

  /** The links follow the spine up to its last node. */
  ghost predicate LinksToLast<T>(head: Node?<T>, spine: seq<Node<T>>)
    reads spine`next
  {
    && Distinct(spine) && head == At(spine, 0)
    && forall i :: 0 <= i < |spine| - 1 ==> spine[i].next == spine[i + 1]
  }

  lemma LinksExceptLast<T>(head: Node?<T>, spine: seq<Node<T>>)
    requires Chain(head, spine)
    ensures LinksToLast(head, spine)
  {
  }

  /** A walk to the end of a list that is not empty. */
  method LastNode<T>(head: Node<T>, ghost spine: seq<Node<T>>) returns (link: Node<T>)
    requires Chain(head, spine)
    ensures spine != [] && link == spine[|spine| - 1]
  {
    link := head;
    ghost var k := 0;
    while link.next != null
      invariant k < |spine| && spine[k] == link
      decreases |spine| - k
    {
      link := link.next;
      k := k + 1;
    }
  }

  /** A node linked behind the last one. */
  lemma Appended<T>(head: Node?<T>, spine: seq<Node<T>>, node: Node<T>)
    requires node !in spine && node.next == null
    requires if spine == [] then head == node else LinksToLast(head, spine) && spine[|spine| - 1].next == node
    ensures Chain(head, spine + [node])
    ensures Values(spine + [node]) == Values(spine) + [node.value]
  {
    var all := spine + [node];
    forall i | 0 <= i < |all| ensures all[i].next == At(all, i + 1) {
      if i < |spine| - 1 {
        assert all[i + 1] == spine[i + 1];
      }
    }
  }

  /** A list whose node at `k - 1` was made the last. */
  lemma CutOff<T>(head: Node?<T>, spine: seq<Node<T>>, k: nat)
    requires Distinct(spine) && 0 < k <= |spine| && head == At(spine, 0)
    requires forall i :: 0 <= i < k - 1 ==> spine[i].next == At(spine, i + 1)
    requires spine[k - 1].next == null
    ensures Chain(head, spine[..k])
    ensures Values(spine[..k]) == Values(spine)[..k]
  {
  }

  /** A sequence without the element at `i`. */
  function Without<T>(s: seq<T>, i: nat): (r: seq<T>)
    requires i < |s|
    ensures |r| == |s| - 1
    ensures forall k :: 0 <= k < |r| ==> r[k] == if k < i then s[k] else s[k + 1]
  {
    s[..i] + s[i + 1..]
  }

  /** The nodes of a list, in no order. */
  ghost function Nodes<T>(spine: seq<Node<T>>): set<Node<T>> {
    set n | n in spine
  }

  lemma NodesWithout<T>(spine: seq<Node<T>>, i: nat)
    requires i < |spine|
    ensures Nodes(Without(spine, i)) <= Nodes(spine)
  {
  }

  /** The node before a position, null before the first. */
  ghost function Prior<T>(spine: seq<Node<T>>, i: nat): Node?<T> {
    if 0 < i <= |spine| then spine[i - 1] else null
  }

  lemma Ends<T>(spine: seq<Node<T>>, i: nat)
    ensures At(spine, i) == null <==> i >= |spine|
    ensures Prior(spine, 0) == null
  {
  }

  lemma AroundWithout<T>(spine: seq<Node<T>>, i: nat)
    requires i < |spine|
    ensures At(Without(spine, i), i) == At(spine, i + 1)
    ensures Prior(Without(spine, i), i) == Prior(spine, i)
    ensures At(spine, i) == spine[i] == Prior(spine, i + 1)
  {
  }

  lemma DistinctWithout<T>(spine: seq<Node<T>>, i: nat)
    requires Distinct(spine) && i < |spine|
    ensures Distinct(Without(spine, i))
  {
  }

  /** The links follow the spine, but past its node at `i`. */
  ghost predicate LinksSkip<T>(head: Node?<T>, spine: seq<Node<T>>, i: nat)
    requires i < |spine|
    reads spine`next
  {
    && head == (if i == 0 then At(spine, 1) else spine[0])
    && forall k :: 0 <= k < |spine| ==> spine[k].next == if k + 1 == i then At(spine, i + 1) else At(spine, k + 1)
  }

  lemma Skipped<T>(head: Node?<T>, spine: seq<Node<T>>, i: nat)
    requires Distinct(spine) && i < |spine| && LinksSkip(head, spine, i)
    ensures Chain(head, Without(spine, i))
    ensures Values(Without(spine, i)) == Without(Values(spine), i)
  {
    hide Distinct;
    DistinctWithout(spine, i);
    var rest := Without(spine, i);
    forall k | 0 <= k < |rest| ensures rest[k].next == At(rest, k + 1) {
      if k + 1 < i {
        assert rest[k] == spine[k] && rest[k + 1] == spine[k + 1];
      } else if k + 1 == i {
        assert rest[k] == spine[k] && At(rest, i) == At(spine, i + 1);
      } else {
        assert rest[k] == spine[k + 1] && At(rest, k + 1) == At(spine, k + 2);
      }
    }
  }

  /** A sequence without the element at `i`, if it is that long. */
  function Gone<T>(s: seq<T>, i: nat): seq<T> {
    if i < |s| then Without(s, i) else s
  }

  lemma GoneIs<T>(s: seq<T>, i: nat)
    ensures Gone(s, i) == if i < |s| then Without(s, i) else s
  {
  }

  /** `node` is at `i`, or nowhere in the list when `i` is past its end. */
  ghost predicate Placed<T>(spine: seq<Node<T>>, node: Node<T>, i: nat) {
    i <= |spine| && if i < |spine| then spine[i] == node else node !in spine
  }

  /** The one node, if any. */
  ghost function Only<T>(node: Node?<T>): set<Node<T>> {
    if node == null then {} else {node}
  }

  /**
   Unlinks `node` from a list if it is in it, as the removals by pointer do: a pointer to a
   link walks the list until the link leads to the node or nowhere.
   */
  method Unlink<T>(head: Node?<T>, node: Node<T>, ghost spine: seq<Node<T>>, ghost i: nat) returns (newHead: Node?<T>)
    requires Chain(head, spine) && Placed(spine, node, i)
    modifies spine`next
    ensures Chain(newHead, Gone(spine, i))
    ensures Values(Gone(spine, i)) == Gone(old(Values(spine)), i)
  {
    ghost var values := Values(spine);
    newHead := head;
    if head == node {
      newHead := node.next;
    } else if head != null {
      var link := Link(head, node, spine, i);
      if link.next == node {
        link.next := node.next;
      }
    }
    assert Values(spine) == values;
    if i < |spine| {
      Skipped(newHead, spine, i);
    }
  }

  /** The node before `node`, or the last one. */
  method Link<T>(head: Node<T>, node: Node<T>, ghost spine: seq<Node<T>>, ghost i: nat) returns (link: Node<T>)
    requires Chain(head, spine) && Placed(spine, node, i) && head != node
    ensures 0 < i <= |spine| && link == spine[i - 1]
  {
    link := head;
    ghost var k := 0;
    while link.next != null && link.next != node
      invariant k < |spine| && spine[k] == link && k < i
      decreases |spine| - k
    {
      link := link.next;
      k := k + 1;
    }
  }

  /** Unlinks the node at `i`, given the node before it, or null when it is the first. */
  method UnlinkAfter<T>(head: Node<T>, prev: Node?<T>, ghost spine: seq<Node<T>>, ghost i: nat)
      returns (newHead: Node?<T>)
    requires Chain(head, spine) && i < |spine| && prev == Prior(spine, i)
    modifies spine`next
    ensures Chain(newHead, Without(spine, i))
    ensures Values(Without(spine, i)) == Without(old(Values(spine)), i)
  {
    ghost var values := Values(spine);
    newHead := head;
    if prev == null {
      newHead := head.next;
    } else {
      prev.next := prev.next.next;
    }
    assert Values(spine) == values;
    Skipped(newHead, spine, i);
  }
}
