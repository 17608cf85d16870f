/** The node arena (NodeFactory of node_factory.hpp). Node types in the
    source name the factory's key type `NodeT::Key` while the node class
    exposes it as `key_t`; here both are `string`. */
module NodeFactories {
  import opened Nodes

  /** The nodes a factory hands out for the given keys, as they are created:
      a key and nothing below it. */
  function Fresh<V>(keys: seq<string>): (ns: seq<Node<V>>)
    ensures |ns| == |keys|
    ensures forall i :: 0 <= i < |keys| ==> ns[i] == Leaf(keys[i])
  {
    if keys == [] then [] else [Leaf(keys[0])] + Fresh(keys[1..])
  }

  /** m_store: every node the arena owns, in the order it made them. A node
      is recorded as it was made; the live node, grown and re-keyed since, is
      the one inside the tree's root value. A node is referred to by its
      position in the store. */
  class NodeFactory<V> {
    var store: seq<Node<V>>

    constructor ()
      ensures store == []
    {
      store := [];
    }

    /** newNode: stores one new node with the key and nothing below it, and
        returns where it is, a position no earlier node has. */
    method NewNode(key: string) returns (id: nat)
      modifies this
      ensures store == old(store) + [Leaf(key)]
      ensures id == |old(store)| && id == |store| - 1 && store[id] == Leaf(key)
    {
      store := store + [Leaf(key)];
      id := |store| - 1;
    }

    /** clear: the arena lets go of every node. */
    method Clear()
      modifies this
      ensures store == []
    {
      store := [];
    }
  }
}
