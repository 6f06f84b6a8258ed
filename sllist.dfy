/**
 * The generic singly linked list routines of common.c.  Every list struct of
 * the source begins with a `next` link, so the routines work on any of
 * them; here a list is a chain of `Node` objects, and the ghost sequence
 * `nodes` names, in order, the nodes the chain runs through.  A routine that
 * takes the address of the list head in the source returns the new head.
 */
module SlList {
  import opened Common

  /** One list element: the `next` link and the payload that follows it. */
  class Node<T> {
    var next: Node?<T>
    const val: T

    constructor (v: T)
      ensures next == null && val == v
    {
      next := null;
      val := v;
    }
  }

  /** The nodes of a list, as a set of objects. */
  ghost function Footprint<T>(nodes: seq<Node<T>>): set<Node<T>>
  {
    set i | 0 <= i < |nodes| :: nodes[i]
  }

  /** No node appears twice. */
  ghost predicate Distinct<T>(nodes: seq<Node<T>>)
  {
    forall i, j | 0 <= i < j < |nodes| :: nodes[i] != nodes[j]
  }

  /** The node that follows nodes[i] on the list, NULL after the last one. */
  ghost function Succ<T>(nodes: seq<Node<T>>, i: int): Node?<T>
  {
    if 0 <= i && i + 1 < |nodes| then nodes[i + 1] else null
  }

  /** `head` starts a NULL-terminated chain that runs through exactly `nodes`. */
  ghost predicate IsList<T>(head: Node?<T>, nodes: seq<Node<T>>)
    reads Footprint(nodes)
  {
    && Distinct(nodes)
    && head == (if |nodes| == 0 then null else nodes[0])
    && forall i | 0 <= i < |nodes| :: nodes[i].next == Succ(nodes, i)
  }

  /** slCount: the number of elements of the list. */
  method SlCount<T>(list: Node?<T>, ghost nodes: seq<Node<T>>) returns (len: nat)
    requires IsList(list, nodes)
    ensures len == |nodes|
  {
    var pt := list;
    len := 0;
    while pt != null
      invariant len <= |nodes|
      invariant pt == (if len < |nodes| then nodes[len] else null)
      decreases |nodes| - len
    {
      len := len + 1;
      pt := pt.next;
    }
  }

  /** The node before nodes[i] on the list, NULL before the first one. */
  ghost function Pred<T>(nodes: seq<Node<T>>, i: int): Node?<T>
  {
    if 0 < i <= |nodes| then nodes[i - 1] else null
  }

  /** slReverse: relinks the nodes so that the list runs in the opposite order. */
  method SlReverse<T>(list: Node?<T>, ghost nodes: seq<Node<T>>) returns (newList: Node?<T>)
    requires IsList(list, nodes)
    modifies Footprint(nodes)
    ensures IsList(newList, Reversed(nodes))
  {
    newList := null;
    var next := list;
    ghost var k := 0;
    while next != null
      invariant 0 <= k <= |nodes| && Distinct(nodes)
      invariant next == (if k < |nodes| then nodes[k] else null)
      invariant newList == Pred(nodes, k)
      invariant forall i | 0 <= i < k :: nodes[i].next == Pred(nodes, i)
      invariant forall i | k <= i < |nodes| :: nodes[i].next == Succ(nodes, i)
      decreases |nodes| - k
    {
      var el := next;
      next := el.next;
      el.next := newList;
      newList := el;
      k := k + 1;
    }
    BackwardLinks(nodes);
  }

  /** Nodes each linked to their predecessor form the reversed list. */
  lemma BackwardLinks<T>(nodes: seq<Node<T>>)
    requires Distinct(nodes)
    requires forall i | 0 <= i < |nodes| :: nodes[i].next == Pred(nodes, i)
    ensures IsList(Pred(nodes, |nodes|), Reversed(nodes))
  {
    var r := Reversed(nodes);
    FootprintReversed(nodes);
    forall i | 0 <= i < |r| ensures r[i].next == Succ(r, i) {
      var j := |nodes| - 1 - i;
      assert r[i] == nodes[j];
      if i + 1 < |r| {
        assert r[i + 1] == nodes[j - 1];
      }
    }
  }

  /** Reversing a list twice restores the original order. */
  method SlReverseTwice<T>(list: Node?<T>, ghost nodes: seq<Node<T>>) returns (r: Node?<T>)
    requires IsList(list, nodes)
    modifies Footprint(nodes)
    ensures IsList(r, nodes) && r == list
  {
    var once := SlReverse(list, nodes);
    FootprintReversed(nodes);
    r := SlReverse(once, Reversed(nodes));
    ReversedTwice(nodes);
  }

  /** slAddTail: the node becomes the last element; it must not be on the list already. */
  method SlAddTail<T>(list: Node?<T>, node: Node<T>, ghost nodes: seq<Node<T>>) returns (newList: Node?<T>)
    requires IsList(list, nodes) && node !in Footprint(nodes)
    modifies Footprint(nodes), node
    ensures IsList(newList, nodes + [node])
  {
    node.next := null;
    if list == null {
      return node;
    }
    var pt := list;
    ghost var k := 0;
    while pt.next != null
      invariant 0 <= k < |nodes| && pt == nodes[k]
      invariant forall i | 0 <= i < |nodes| :: nodes[i].next == Succ(nodes, i)
      decreases |nodes| - k
    {
      pt := pt.next;
      k := k + 1;
    }
    pt.next := node;
    newList := list;
    ghost var r := nodes + [node];
    assert forall i | 0 <= i < |nodes| :: r[i] == nodes[i];
  }

  /** slPopHead: detaches and returns the first node, or NULL for an empty list. */
  method SlPopHead<T>(list: Node?<T>, ghost nodes: seq<Node<T>>) returns (newList: Node?<T>, el: Node?<T>)
    requires IsList(list, nodes)
    modifies if list == null then {} else {list}
    ensures |nodes| == 0 ==> el == null && newList == null
    ensures |nodes| > 0 ==> el == nodes[0] && el.next == null && IsList(newList, nodes[1..])
  {
    el := list;
    newList := list;
    if el != null {
      newList := el.next;
      el.next := null;
    }
  }

  /** slCat: the nodes of b follow those of a; the two lists share no node. */
  method SlCat<T>(a: Node?<T>, b: Node?<T>, ghost na: seq<Node<T>>, ghost nb: seq<Node<T>>) returns (r: Node?<T>)
    requires IsList(a, na) && IsList(b, nb)
    requires Footprint(na) !! Footprint(nb)
    modifies Footprint(na)
    ensures IsList(r, na + nb)
  {
    if a == null {
      assert na + nb == nb;
      return b;
    }
    var end := a;
    ghost var k := 0;
    while end.next != null
      invariant 0 <= k < |na| && end == na[k]
      decreases |na| - k
    {
      end := end.next;
      k := k + 1;
    }
    end.next := b;
    r := a;
    ghost var s := na + nb;
    forall i, j | 0 <= i < j < |s| ensures s[i] != s[j] {
      if j >= |na| && i < |na| {
        assert s[i] in Footprint(na) && s[j] in Footprint(nb);
      }
    }
    forall i | 0 <= i < |s| ensures s[i].next == Succ(s, i) {
      if i >= |na| {
        assert s[i] == nb[i - |na|] && s[i] !in Footprint(na);
      }
    }
  }

  /** The nodes of a list other than x, in order. */
  ghost function Without<T>(nodes: seq<Node<T>>, x: Node<T>): seq<Node<T>>
  {
    if |nodes| == 0 then []
    else
      var rest := Without(nodes[..|nodes| - 1], x);
      if nodes[|nodes| - 1] == x then rest else rest + [nodes[|nodes| - 1]]
  }

  /** Without removes exactly x, and keeps the remaining nodes distinct. */
  lemma {:induction false} WithoutFootprint<T>(nodes: seq<Node<T>>, x: Node<T>)
    ensures Footprint(Without(nodes, x)) == Footprint(nodes) - {x}
    ensures Distinct(nodes) ==> Distinct(Without(nodes, x))
  {
    if |nodes| > 0 {
      var init := nodes[..|nodes| - 1];
      var last := nodes[|nodes| - 1];
      WithoutFootprint(init, x);
      assert nodes == init + [last];
      FootprintAppend(init, [last]);
      var rest := Without(init, x);
      if last != x {
        FootprintAppend(rest, [last]);
        if Distinct(nodes) {
          assert last !in Footprint(init) by {
            forall i | 0 <= i < |init| ensures init[i] != last {
              assert init[i] == nodes[i];
            }
          }
          var r := rest + [last];
          forall i, j | 0 <= i < j < |r| ensures r[i] != r[j] {
            if j == |rest| {
              assert r[i] in Footprint(rest);
            }
          }
        }
      }
    }
  }

  /** What one step of SlRemoveEl's walk adds to the prefix of nodes it has seen. */
  lemma RemoveStep<T>(nodes: seq<Node<T>>, k: nat, x: Node<T>)
    requires k < |nodes| && Distinct(nodes)
    ensures Footprint(nodes[..k + 1]) == Footprint(nodes[..k]) + {nodes[k]}
    ensures nodes[k] !in Footprint(nodes[..k])
    ensures Without(nodes[..k + 1], x)
      == if nodes[k] == x then Without(nodes[..k], x) else Without(nodes[..k], x) + [nodes[k]]
  {
    var prefix := nodes[..k + 1];
    assert prefix[..k] == nodes[..k];
    assert prefix == nodes[..k] + [nodes[k]];
    FootprintAppend(nodes[..k], [nodes[k]]);
    forall i | 0 <= i < k ensures nodes[..k][i] != nodes[k] {
      assert nodes[..k][i] == nodes[i];
    }
  }

  /**
   * slAddHead: links a node that is not on the list in front of its head.
   * (slAddHead is a macro of common.h, which is not part of this model.)
   */
  method SlAddHead<T>(list: Node?<T>, ghost nodes: seq<Node<T>>, el: Node<T>) returns (newList: Node<T>)
    requires IsList(list, nodes) && el !in Footprint(nodes)
    modifies el
    ensures newList == el && IsList(newList, [el] + nodes)
    ensures Footprint([el] + nodes) == {el} + Footprint(nodes)
  {
    el.next := list;
    PushList(el, list, nodes);
    FootprintAppend([el], nodes);
    assert Footprint([el]) == {el};
    return el;
  }

  /** Pushing a node that is not on a list onto its head. */
  lemma PushList<T>(el: Node<T>, rev: Node?<T>, rk: seq<Node<T>>)
    requires IsList(rev, rk) && el !in Footprint(rk) && el.next == rev
    ensures IsList(el, [el] + rk)
  {
    var r := [el] + rk;
    forall i, j | 0 <= i < j < |r| ensures r[i] != r[j] {
      if i == 0 {
        assert r[j] in Footprint(rk);
      }
    }
    forall i | 0 <= i < |r| ensures r[i].next == Succ(r, i) {
      if i > 0 {
        assert r[i] == rk[i - 1];
      }
    }
  }

  /**
   * slRemoveEl: every node but toRemove, moved one by one onto the head of a
   * new list that is then reversed.  Returns whether toRemove was found.
   * The next link of toRemove itself is left as it was.
   */
  method SlRemoveEl<T>(list: Node?<T>, toRemove: Node<T>, ghost nodes: seq<Node<T>>)
    returns (newList: Node?<T>, didRemove: bool)
    requires IsList(list, nodes)
    modifies Footprint(nodes)
    ensures IsList(newList, Without(nodes, toRemove))
    ensures didRemove <==> toRemove in Footprint(nodes)
    ensures toRemove.next == old(toRemove.next)
  {
    var el := list;
    var rev: Node?<T> := null;
    didRemove := false;
    ghost var k := 0;
    ghost var rk: seq<Node<T>> := [];
    while el != null
      invariant 0 <= k <= |nodes| && Distinct(nodes)
      invariant el == (if k < |nodes| then nodes[k] else null)
      invariant rk == Reversed(Without(nodes[..k], toRemove))
      invariant Footprint(rk) <= Footprint(nodes[..k])
      invariant IsList(rev, rk)
      invariant forall i | k <= i < |nodes| :: nodes[i].next == Succ(nodes, i)
      invariant didRemove <==> toRemove in Footprint(nodes[..k])
      invariant toRemove.next == old(toRemove.next)
      decreases |nodes| - k
    {
      var next := el.next;
      RemoveStep(nodes, k, toRemove);
      if el != toRemove {
        rev, rk := KeepNode(el, toRemove, rev, rk, nodes, k);
      } else {
        didRemove := true;
      }
      el := next;
      k := k + 1;
    }
    assert nodes[..k] == nodes;
    WithoutFootprint(nodes, toRemove);
    FootprintReversed(Without(nodes, toRemove));
    assert toRemove !in Footprint(rk);
    newList := SlReverse(rev, rk);
    ReversedTwice(Without(nodes, toRemove));
  }

  /** One node of slRemoveEl's walk that is kept: it goes onto the head of the reversed list. */
  method KeepNode<T>(el: Node<T>, toRemove: Node<T>, rev: Node?<T>, ghost rk: seq<Node<T>>,
                     ghost nodes: seq<Node<T>>, ghost k: nat)
    returns (rev': Node?<T>, ghost rk': seq<Node<T>>)
    requires Distinct(nodes) && k < |nodes| && el == nodes[k] && el != toRemove
    requires rk == Reversed(Without(nodes[..k], toRemove)) && Footprint(rk) <= Footprint(nodes[..k])
    requires IsList(rev, rk)
    modifies el
    ensures rk' == Reversed(Without(nodes[..k + 1], toRemove)) && Footprint(rk') <= Footprint(nodes[..k + 1])
    ensures IsList(rev', rk')
  {
    RemoveStep(nodes, k, toRemove);
    rev' := SlAddHead(rev, rk, el);
    ReversedAppend(Without(nodes[..k], toRemove), el);
    rk' := [el] + rk;
  }

  /** Reversing a sequence with one more element at the end puts it first. */
  lemma ReversedAppend<T>(s: seq<T>, x: T)
    ensures Reversed(s + [x]) == [x] + Reversed(s)
  {
  }

  /** The nodes of a concatenation are those of its parts. */
  lemma FootprintAppend<T>(a: seq<Node<T>>, b: seq<Node<T>>)
    ensures Footprint(a + b) == Footprint(a) + Footprint(b)
  {
    var ab := a + b;
    forall n | n in Footprint(a) ensures n in Footprint(ab) {
      var i :| 0 <= i < |a| && a[i] == n;
      assert ab[i] == n;
    }
    forall n | n in Footprint(b) ensures n in Footprint(ab) {
      var i :| 0 <= i < |b| && b[i] == n;
      assert ab[|a| + i] == n;
    }
  }

  /** Reversal keeps the set of nodes. */
  lemma FootprintReversed<T>(nodes: seq<Node<T>>)
    ensures Footprint(Reversed(nodes)) == Footprint(nodes)
    ensures Distinct(nodes) ==> Distinct(Reversed(nodes))
  {
    var r := Reversed(nodes);
    forall n | n in Footprint(nodes) ensures n in Footprint(r) {
      var i :| 0 <= i < |nodes| && nodes[i] == n;
      assert r[|nodes| - 1 - i] == n;
    }
    forall i, j | Distinct(nodes) && 0 <= i < j < |r| ensures r[i] != r[j] {
      assert r[i] == nodes[|nodes| - 1 - i] && r[j] == nodes[|nodes| - 1 - j];
    }
  }
}
