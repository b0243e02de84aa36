/** The circular doubly linked lists of src/list.c, which hold the properties and the children of a
    device tree node. */
module LinkedList {

  class ListNode {
    var prev: ListNode?
    var next: ListNode?

    constructor ()
    {
      prev, next := null, null;
    }
  }

  /** Position i of the ring: the head is position 0, the members of s follow, and then the head
      comes round again. */
  function Pos(head: ListNode, s: seq<ListNode>, i: nat): ListNode
    requires i <= |s| + 1
  {
    if 0 < i <= |s| then s[i - 1] else head
  }

  ghost predicate Linked(a: ListNode, b: ListNode)
    reads a, b
  {
    a.next == b && b.prev == a
  }

  ghost predicate Distinct(head: ListNode, s: seq<ListNode>) {
    head !in s && forall i, j :: 0 <= i < j < |s| ==> s[i] != s[j]
  }

  /** The list with this head has the members s, in this order. */
  ghost predicate Ring(head: ListNode, s: seq<ListNode>)
    reads head, s
  {
    Distinct(head, s) && forall i :: 0 <= i <= |s| ==> Linked(Pos(head, s, i), Pos(head, s, i + 1))
  }

  /** A head has one list at most. */
  lemma {:induction false} RingUnique(head: ListNode, s: seq<ListNode>, t: seq<ListNode>)
    requires Ring(head, s) && Ring(head, t)
    ensures s == t
    decreases |s|
  {
    if |t| < |s| {
      RingUnique(head, t, s);
    } else {
      for i := 0 to |s|
        invariant forall j :: 0 <= j <= i ==> Pos(head, s, j) == Pos(head, t, j)
      {
        assert Linked(Pos(head, s, i), Pos(head, s, i + 1)) && Linked(Pos(head, t, i), Pos(head, t, i + 1));
      }
      assert forall j :: 0 <= j < |s| ==> s[j] == Pos(head, s, j + 1) == t[j];
      assert Linked(Pos(head, s, |s|), Pos(head, s, |s| + 1)) && Linked(Pos(head, t, |s|), Pos(head, t, |s| + 1));
    }
  }

  /** s with x at index k. */
  function Inserted(s: seq<ListNode>, k: nat, x: ListNode): seq<ListNode>
    requires k <= |s|
  {
    s[..k] + [x] + s[k..]
  }

  function Removed(s: seq<ListNode>, k: nat): seq<ListNode>
    requires k < |s|
  {
    s[..k] + s[k + 1..]
  }

  method ListInit(list: ListNode)
    modifies list
    ensures Ring(list, [])
  {
    list.next := list;
    list.prev := list;
  }

  /** Two positions from 1 to |s| + 1, or from 0 to |s|, are different nodes. */
  lemma {:induction false} PosDistinct(head: ListNode, s: seq<ListNode>, i: nat, j: nat)
    requires Distinct(head, s) && i < j <= |s| + 1 && (i > 0 || j <= |s|)
    ensures Pos(head, s, i) != Pos(head, s, j)
  {
    if 0 < i {
      assert s[i - 1] in s;
    } else {
      assert s[j - 1] in s;
    }
  }

  /** list_insert_after: behind position k of the list. */
  method InsertAfter(node: ListNode, after: ListNode, ghost head: ListNode, ghost s: seq<ListNode>, ghost k: nat)
    requires Ring(head, s) && after != head && after !in s
    requires k <= |s| && node == Pos(head, s, k)
    modifies node`next, after, Pos(head, s, k + 1)`prev
    ensures Ring(head, Inserted(s, k, after))
  {
    assert Linked(Pos(head, s, k), Pos(head, s, k + 1));
    after.prev := node;
    after.next := node.next;
    after.prev.next := after;
    if after.next != null {
      after.next.prev := after;
    }
    ghost var t := Inserted(s, k, after);
    forall i | 0 <= i <= |t| ensures Linked(Pos(head, t, i), Pos(head, t, i + 1)) {
      var j := if i <= k then i else i - 1;
      assert old(Linked(Pos(head, s, j), Pos(head, s, j + 1)));
      if j < k {
        PosDistinct(head, s, j, k);
        PosDistinct(head, s, j + 1, k + 1);
      } else if k < j {
        PosDistinct(head, s, k, j);
        PosDistinct(head, s, k + 1, j + 1);
      }
    }
  }

  /** list_insert_befor: before position k of the list; before the head is at the end. */
  method InsertBefor(node: ListNode, befor: ListNode, ghost head: ListNode, ghost s: seq<ListNode>, ghost k: nat)
    requires Ring(head, s) && befor != head && befor !in s
    requires k <= |s| && node == Pos(head, s, k + 1)
    modifies node`prev, befor, Pos(head, s, k)`next
    ensures Ring(head, Inserted(s, k, befor))
  {
    assert Linked(Pos(head, s, k), Pos(head, s, k + 1));
    befor.next := node;
    befor.prev := node.prev;
    befor.next.prev := befor;
    if befor.prev != null {
      befor.prev.next := befor;
    }
    ghost var t := Inserted(s, k, befor);
    forall i | 0 <= i <= |t| ensures Linked(Pos(head, t, i), Pos(head, t, i + 1)) {
      var j := if i <= k then i else i - 1;
      assert old(Linked(Pos(head, s, j), Pos(head, s, j + 1)));
      if j < k {
        PosDistinct(head, s, j, k);
        PosDistinct(head, s, j + 1, k + 1);
      } else if k < j {
        PosDistinct(head, s, k, j);
        PosDistinct(head, s, k + 1, j + 1);
      }
    }
  }

  /** What every addition to a device tree does: insertion before the head appends. */
  method Append(head: ListNode, x: ListNode, ghost s: seq<ListNode>)
    requires Ring(head, s) && x != head && x !in s
    modifies head`prev, x, Pos(head, s, |s|)`next
    ensures Ring(head, s + [x])
  {
    InsertBefor(head, x, head, s, |s|);
    assert Inserted(s, |s|, x) == s + [x];
  }

  /** list_remove of member k; the removed node keeps its pointers into the list. */
  method Remove(node: ListNode, ghost head: ListNode, ghost s: seq<ListNode>, ghost k: nat)
    requires Ring(head, s) && k < |s| && node == s[k]
    modifies Pos(head, s, k)`next, Pos(head, s, k + 2)`prev
    ensures Ring(head, Removed(s, k))
  {
    assert Linked(Pos(head, s, k), Pos(head, s, k + 1)) && Linked(Pos(head, s, k + 1), Pos(head, s, k + 2));
    var prev, next := node.prev, node.next;
    prev.next := next;
    next.prev := prev;
    ghost var t := Removed(s, k);
    forall i | 0 <= i <= |t| ensures Linked(Pos(head, t, i), Pos(head, t, i + 1)) {
      var j := if i <= k then i else i + 1;
      assert old(Linked(Pos(head, s, j), Pos(head, s, j + 1)));
      if j < k {
        PosDistinct(head, s, j, k);
        PosDistinct(head, s, j + 1, k + 2);
      } else if k < j {
        PosDistinct(head, s, k, j);
        PosDistinct(head, s, k + 2, j + 1);
      }
    }
  }

  /** The two lists have no node in common. */
  ghost predicate Apart(h1: ListNode, s1: seq<ListNode>, h2: ListNode, s2: seq<ListNode>) {
    h1 != h2 && h1 !in s2 && h2 !in s1 && forall x :: x in s1 ==> x !in s2
  }

  lemma {:induction false} PosApart(h1: ListNode, s1: seq<ListNode>, h2: ListNode, s2: seq<ListNode>, i: nat)
    requires Apart(h1, s1, h2, s2) && i <= |s1| + 1
    ensures Pos(h1, s1, i) != h2 && Pos(h1, s1, i) !in s2
  {
    if 0 < i <= |s1| {
      assert s1[i - 1] in s1;
    }
  }

  /** Removing a member and appending it elsewhere: neither operation touches the other list. */
  method Move(node: ListNode, h2: ListNode, ghost h1: ListNode, ghost s1: seq<ListNode>, ghost k: nat,
              ghost s2: seq<ListNode>)
    requires Ring(h1, s1) && Ring(h2, s2) && Apart(h1, s1, h2, s2)
    requires k < |s1| && node == s1[k]
    modifies h1, s1, h2, s2
    ensures Ring(h1, Removed(s1, k)) && Ring(h2, s2 + [node]) && Apart(h1, Removed(s1, k), h2, s2 + [node])
  {
    ghost var t := Removed(s1, k);
    assert Apart(h1, t, h2, s2) && node !in t && node in s1 && node !in s2;
    PosApart(h1, s1, h2, s2, k);
    PosApart(h1, s1, h2, s2, k + 2);
    Remove(node, h1, s1, k);
    assert Apart(h2, s2, h1, t);
    PosApart(h2, s2, h1, t, |s2|);
    Append(h2, node, s2);
  }

  /** list_for_each: from the head's successor to the head again, every member once and in order. */
  method ForEach(head: ListNode, ghost s: seq<ListNode>) returns (visited: seq<ListNode>)
    requires Ring(head, s)
    ensures visited == s
  {
    visited := [];
    assert Linked(Pos(head, s, 0), Pos(head, s, 1));
    var node := head.next;
    while node != head
      invariant |visited| <= |s| && visited == s[..|visited|]
      invariant node == Pos(head, s, |visited| + 1)
      decreases |s| - |visited|
    {
      visited := visited + [node];
      assert Linked(Pos(head, s, |visited|), Pos(head, s, |visited| + 1));
      node := node.next;
    }
  }
}
