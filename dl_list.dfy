/**
 * The intrusive doubly-linked list of dl_list.h (and DLL_decap of the test
 * application's dl_list.c): a list points to its first and last node, every
 * node to its previous and next node. The ghost sequence `nodes` is the
 * list in order; Valid() ties the pointers to it.
 */
module DLList {

  class Node {
    var prev: Node?
    var next: Node?

    constructor ()
      ensures prev == null && next == null
    {
      prev := null;
      next := null;
    }
  }

  /** The position of a node in a sequence of distinct nodes. */
  ghost function Position(s: seq<Node>, x: Node): (k: nat)
    requires x in s
    ensures k < |s| && s[k] == x
  {
    if s[0] == x then 0 else 1 + Position(s[1..], x)
  }

  class List {
    var first: Node?
    var last: Node?
    ghost var nodes: seq<Node>

    /**
     * No node twice; first and last are the ends (null for the empty list);
     * each node's next is its successor and the successor's prev is the
     * node; the ends link to null.
     */
    ghost predicate Valid()
      reads this, nodes
    {
      (forall i, j | 0 <= i < j < |nodes| :: nodes[i] != nodes[j])
      && (if nodes == [] then first == null && last == null
          else first == nodes[0] && last == nodes[|nodes| - 1]
               && nodes[0].prev == null && nodes[|nodes| - 1].next == null)
      && (forall i | 0 <= i < |nodes| - 1 :: LinkedAt(i))
    }

    /** Node i and node i + 1 link to each other. */
    ghost predicate LinkedAt(i: nat)
      reads this, nodes
      requires i + 1 < |nodes|
    {
      nodes[i].next == nodes[i + 1] && nodes[i + 1].prev == nodes[i]
    }

    /** DLL_init: no first and no last node. */
    constructor ()
      ensures Valid() && nodes == []
    {
      first := null;
      last := null;
      nodes := [];
    }

    /** Walking from DLL_first along DLL_next: the nodes in list order, until null. */
    method Walk() returns (walked: seq<Node>)
      requires Valid()
      ensures walked == nodes
    {
      walked := [];
      var n := first;
      while n != null
        invariant |walked| <= |nodes| && walked == nodes[..|walked|]
        invariant n == if |walked| < |nodes| then nodes[|walked|] else null
        decreases |nodes| - |walked|
      {
        if |walked| + 1 < |nodes| {
          assert LinkedAt(|walked|);
        }
        walked := walked + [n];
        n := n.next;
      }
    }

    /** DLL_append: the node becomes the last one, behind the old last node. */
    method Append(node: Node)
      requires Valid() && node !in nodes
      modifies this, node, last
      ensures Valid() && nodes == old(nodes) + [node]
      ensures node.prev == old(last) && node.next == null
    {
      if first == null {
        first := node;
      }
      node.prev := last;
      node.next := null;
      if last != null {
        last.next := node;
      }
      last := node;
      nodes := nodes + [node];
      forall i | 0 <= i < |nodes| - 1
        ensures LinkedAt(i)
      {
        if i + 1 < |nodes| - 1 {
          assert old(LinkedAt(i));
        }
      }
    }

    /**
     * DLL_unlink: the node leaves the list, its neighbours (or the list's
     * ends) are linked to each other, and its own links are cleared.
     */
    method Unlink(node: Node)
      requires Valid() && node in nodes
      modifies this, node, node.prev, node.next
      ensures Valid() && node.prev == null && node.next == null
      ensures var k := Position(old(nodes), node); nodes == old(nodes)[..k] + old(nodes)[k + 1..]
    {
      ghost var k := Position(nodes, node);
      ghost var before := nodes;
      ghost var n := |before|;
      Bypass(node, k);
      node.prev := null;
      node.next := null;
      nodes := nodes[..k] + nodes[k + 1..];
      assert forall i | 0 <= i < n - 1 :: nodes[i] == if i < k then before[i] else before[i + 1];
      if n >= 2 && k == 0 {
        assert old(LinkedAt(0));
      }
      if n >= 2 && k == n - 1 {
        assert old(LinkedAt(n - 2));
      }
      forall i | 0 <= i < n - 2
        ensures LinkedAt(i)
      {
        if i + 1 < k {
          assert nodes[i] == before[i] && nodes[i + 1] == before[i + 1];
          assert old(LinkedAt(i));
        } else if i + 1 == k {
          assert nodes[i] == before[k - 1] && nodes[i + 1] == before[k + 1];
          assert old(LinkedAt(k - 1)) && old(LinkedAt(k));
        } else {
          assert nodes[i] == before[i + 1] && nodes[i + 1] == before[i + 2];
          assert old(LinkedAt(i + 1));
        }
      }
    }

    /**
     * The two relinking steps of DLL_unlink for node k: its predecessor (or
     * `first`) skips forward over it, its successor (or `last`) back over it.
     */
    method Bypass(node: Node, ghost k: nat)
      requires Valid() && k < |nodes| && nodes[k] == node
      modifies this, node.prev, node.next
      ensures nodes == old(nodes) && node.prev == old(node.prev) && node.next == old(node.next)
      ensures first == (if k == 0 then old(node.next) else old(first))
      ensures last == (if k == |nodes| - 1 then old(node.prev) else old(last))
      ensures forall j | 0 <= j < |nodes| && j != k ::
        nodes[j].next == (if j == k - 1 then old(node.next) else old(nodes[j].next))
        && nodes[j].prev == (if j == k + 1 then old(node.prev) else old(nodes[j].prev))
    {
      assert k == 0 <==> first == node;
      assert k == |nodes| - 1 <==> last == node;
      if k > 0 {
        assert LinkedAt(k - 1);
      }
      if k < |nodes| - 1 {
        assert LinkedAt(k);
      }
      if first == node {
        first := node.next;
      } else {
        node.prev.next := node.next;
      }
      if last == node {
        last := node.prev;
      } else {
        node.next.prev := node.prev;
      }
    }

    /**
     * DLL_decap as the source has it: the first node leaves the list (null
     * for the empty list) and only `first` and `last` change, so the new
     * first node keeps the removed node as its prev.
     */
    method DecapAsWritten() returns (node: Node?)
      requires Valid()
      modifies this
      ensures node == old(first) && (node == null <==> old(nodes) == [])
      ensures node == null ==> first == null && last == null
      ensures node != null ==> first == node.next && last == (if old(last) == node then null else old(last))
      ensures |old(nodes)| >= 2 ==> first != null && first.prev == node && node != null
    {
      node := first;
      if node == null {
        return;
      }
      if |nodes| >= 2 {
        assert LinkedAt(0);
      }
      first := node.next;
      if last == node {
        last := null;
      }
      nodes := nodes[1..];
    }

    /**
     * DLL_decap with the new first node's prev cleared: the first node
     * leaves the list and the rest is still a list.
     */
    method Decap() returns (node: Node?)
      requires Valid()
      modifies this, nodes
      ensures Valid()
      ensures old(nodes) == [] ==> node == null && nodes == []
      ensures old(nodes) != [] ==> node == old(nodes)[0] && nodes == old(nodes)[1..]
      ensures node != null ==> node.prev == old(node.prev) && node.next == old(node.next)
    {
      node := first;
      if node == null {
        return;
      }
      if last != node {
        assert LinkedAt(0);
      }
      first := node.next;
      if last == node {
        last := null;
      } else {
        node.next.prev := null;
      }
      nodes := nodes[1..];
      forall i | 0 <= i < |nodes| - 1
        ensures LinkedAt(i)
      {
        assert old(LinkedAt(i + 1));
      }
    }
  }

  /** A list whose first node has a prev is not a valid list. */
  lemma DanglingFirst(l: List)
    requires l.first != null && l.first.prev != null
    ensures !l.Valid()
  {
  }
}
