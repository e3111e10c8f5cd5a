/** Linear search: the first element that satisfies a predicate, in a sequence or a list. */
module Search {
  import opened CStrings
  import opened Lists

  /** The position of the first element that satisfies `p`. */
  function First<T>(s: seq<T>, p: T -> bool): (k: Option<nat>)
    ensures k.Some? ==> k.value < |s| && p(s[k.value])
    ensures forall j :: 0 <= j < (if k.Some? then k.value else |s|) ==> !p(s[j])
    decreases |s|
  {
    if s == [] then None
    else if p(s[0]) then Some(0)
    else
      match First(s[1..], p)
      case None => None
      case Some(k) => Some(k + 1)
  }

  /** What a walk that stops at the first match has found. */
  lemma FirstIs<T>(s: seq<T>, p: T -> bool, k: Option<nat>)
    requires k.Some? ==> k.value < |s| && p(s[k.value])
    requires forall j :: 0 <= j < (if k.Some? then k.value else |s|) ==> !p(s[j])
    ensures k == First(s, p)
  {
  }

  /** The walk of a list to its first node whose payload satisfies `p`, null without one. */
  method FindNode<T>(head: Node?<T>, p: T -> bool, ghost spine: seq<Node<T>>) returns (node: Node?<T>)
    requires Chain(head, spine)
    ensures match First(Values(spine), p)
            case None => node == null
            case Some(k) => k < |spine| && node == spine[k]
  {
    hide Chain, Values, First;
    node := head;
    ghost var i := 0;
    ChainAt(head, spine, 0);
    while node != null
      invariant i <= |spine| && node == At(spine, i)
      invariant forall j :: 0 <= j < i ==> !p(spine[j].value)
      decreases |spine| - i
    {
      if p(node.value) {
        FirstIs(Values(spine), p, Some(i));
        return;
      }
      ChainAt(head, spine, i);
      node := node.next;
      i := i + 1;
    }
    FirstIs(Values(spine), p, None);
  }
}
