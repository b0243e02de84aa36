/** The unflattened tree in memory: struct device_tree_node.  The two intrusive lists of a node
    are sequences here; that appending before the list head is appending to the sequence is
    what LinkedList.InsertBefor proves. */
module DtNode {
  import opened Bytes
  import opened FdtFormat

  class Node {
    var name: seq<byte>
    var properties: seq<Property>
    var children: seq<Node>
    /** This node and all nodes below it. */
    ghost var Repr: set<Node>

    constructor (name: seq<byte>)
      ensures this.name == name && properties == [] && children == [] && Repr == {this}
    {
      this.name, properties, children, Repr := name, [], [], {this};
    }

    /** The k-th child, apart from this node, holds t. */
    ghost predicate KidIs(k: nat, t: Tree)
      requires k < |children|
      reads this, Repr
      decreases t, 1
    {
      children[k] in Repr && children[k].Repr <= Repr - {this} && children[k].Holds(t, |t.children|)
    }

    /** The node holds t as far as its name, its properties and its first k children go. */
    ghost predicate Holds(t: Tree, k: nat)
      requires k <= |t.children|
      reads this, Repr
      decreases t, 0
    {
      && this in Repr
      && name == t.name
      && properties == t.properties
      && |children| == k
      && (forall i :: 0 <= i < k ==> children[i] in Repr)
      && (forall i :: 0 <= i < k ==> KidIs(i, t.children[i]))
      && (forall i, j :: 0 <= i < j < k ==> children[i].Repr !! children[j].Repr)
    }

    /** The node and everything under it is the tree t; no node occurs twice. */
    ghost predicate Is(t: Tree)
      reads this, Repr
    {
      Holds(t, |t.children|)
    }

    /** list_insert_befor(&node->children, &child->list_node). */
    method AddChild(child: Node, ghost t: Tree, ghost k: nat)
      requires k < |t.children| && Holds(t, k)
      requires child.Is(t.children[k]) && child.Repr !! Repr
      modifies this
      ensures Holds(t, k + 1)
      ensures children == old(children) + [child] && Repr == old(Repr) + child.Repr
    {
      children := children + [child];
      Repr := Repr + child.Repr;
      forall i | 0 <= i < k + 1
        ensures KidIs(i, t.children[i]) && (i < k ==> children[i].Repr !! child.Repr)
      {
        assert i < k ==> old(KidIs(i, t.children[i]));
      }
    }

    /** What a child of the node is. */
    lemma {:induction false} Kid(t: Tree, i: nat)
      requires Is(t) && i < |t.children|
      ensures i < |children| && KidIs(i, t.children[i])
      ensures children[i].Is(t.children[i]) && children[i].name == t.children[i].name
    {
      assert KidIs(i, t.children[i]);
      assert children[i].Holds(t.children[i], |t.children[i].children|);
    }

    /** A node holds at most one tree. */
    lemma {:induction false} Unique(t1: Tree, t2: Tree)
      requires Is(t1) && Is(t2)
      ensures t1 == t2
      decreases t1
    {
      forall i | 0 <= i < |children| ensures t1.children[i] == t2.children[i] {
        assert KidIs(i, t1.children[i]) && KidIs(i, t2.children[i]);
        children[i].Unique(t1.children[i], t2.children[i]);
      }
      assert t1.children == t2.children;
    }
  }
}
