/** The growable array behind the node lists. The sort and the loader work on the sequences
    it holds; this is the step from such a sequence to its memory. */
module NodeContainers {
  import opened Nodes

  class NodeContainer {
    var nodes: array<Node?>
    var size: nat
    var capacity: nat

    ghost predicate Valid()
      reads this, nodes
    {
      && size <= capacity == nodes.Length && 0 < capacity
      && forall i :: 0 <= i < size ==> nodes[i] != null
    }

    ghost function Contents(): (s: seq<Node?>)
      reads this, nodes
      requires Valid()
    {
      nodes[..size]
    }

    constructor (initialSize: nat)
      requires initialSize > 0
      ensures Valid() && fresh(nodes) && Contents() == []
    {
      nodes := new Node?[initialSize](_ => null);
      size := 0;
      capacity := initialSize;
    }

    /** Moves the nodes to an array of twice the size. */
    method Grow()
      requires Valid()
      modifies this
      ensures Valid() && fresh(nodes) && size == old(size) && capacity == 2 * old(capacity)
      ensures Contents() == old(Contents())
    {
      var larger := new Node?[2 * capacity](_ => null);
      forall i | 0 <= i < size {
        larger[i] := nodes[i];
      }
      nodes := larger;
      capacity := 2 * capacity;
    }

    method Add(node: Node)
      requires Valid()
      modifies this, nodes
      ensures Valid() && (nodes == old(nodes) || fresh(nodes))
      ensures Contents() == old(Contents()) + [node]
    {
      if size == capacity {
        Grow();
      }
      nodes[size] := node;
      size := size + 1;
    }

    /** The last node takes the place of the removed one; nothing is allocated. */
    method Remove(index: nat)
      requires Valid() && index < size
      modifies nodes, `size
      ensures Valid()
      ensures Contents() == RemoveSwap(old(Contents()), index)
    {
      nodes[index] := nodes[size - 1];
      size := size - 1;
    }
  }
}
