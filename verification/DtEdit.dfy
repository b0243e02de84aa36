/** Finding, creating and changing nodes of an unflattened tree: the last part of
    src/device_tree.c. */
module DtEdit {
  import opened Bytes
  import opened FdtFormat
  import opened DtNode
  import opened DtCells
  import opened Options

  // ---- trees as values ---------------------------------------------------------------------

  /** The index of the first tree with a name; the number of trees if there is none. */
  function FirstNamed(ts: seq<Tree>, nm: seq<byte>): (i: nat)
    ensures i <= |ts| && (i < |ts| ==> ts[i].name == nm)
    ensures forall j :: 0 <= j < i ==> ts[j].name != nm
  {
    if ts == [] then 0 else if ts[0].name == nm then 0 else 1 + FirstNamed(ts[1..], nm)
  }

  /** What a path leads to: at each level, the first child with the name. */
  function Find(t: Tree, path: seq<seq<byte>>): Option<Tree>
    decreases |path|
  {
    if path == [] then Some(t)
    else
      var i := FirstNamed(t.children, path[0]);
      if i == |t.children| then None else Find(t.children[i], path[1..])
  }

  /** The tree with a child of this name, appended if missing. */
  function WithChild(t: Tree, nm: seq<byte>): (r: Tree)
    ensures FirstNamed(r.children, nm) < |r.children|
    ensures t.children <= r.children
  {
    var r := if FirstNamed(t.children, nm) < |t.children| then t
             else t.(children := t.children + [Tree(nm, [], [])]);
    assert FirstNamed(t.children, nm) == |t.children| ==> r.children[|t.children|].name == nm;
    r
  }

  /** The tree with every node of a path, missing ones appended empty. */
  function Created(t: Tree, path: seq<seq<byte>>): (r: Tree)
    ensures r.name == t.name && r.properties == t.properties
    decreases |path|
  {
    if path == [] then t
    else
      var w := WithChild(t, path[0]);
      var i := FirstNamed(w.children, path[0]);
      w.(children := w.children[i := Created(w.children[i], path[1..])])
  }

  /** FirstNamed is determined by what it promises. */
  lemma {:induction false} FirstIs(ts: seq<Tree>, nm: seq<byte>, i: nat)
    requires i < |ts| && ts[i].name == nm
    requires forall j :: 0 <= j < i ==> ts[j].name != nm
    ensures FirstNamed(ts, nm) == i
  {
    var k := FirstNamed(ts, nm);
    assert !(i < k) && !(k < i);
  }

  /** A created path leads somewhere. */
  lemma {:induction false} CreatedFound(t: Tree, path: seq<seq<byte>>)
    ensures Find(Created(t, path), path).Some?
    decreases |path|
  {
    if path != [] {
      var w := WithChild(t, path[0]);
      var i := FirstNamed(w.children, path[0]);
      FirstIs(Created(t, path).children, path[0], i);
      CreatedFound(w.children[i], path[1..]);
    }
  }

  /** Where one path leads to is seen from another one: what is created is empty nodes on the path, and
      nothing else is found that was not found before. */
  lemma {:induction false} CreatedElsewhere(t: Tree, path: seq<seq<byte>>, q: seq<seq<byte>>)
    ensures Find(t, q) == None && Find(Created(t, path), q).Some? ==>
              && q <= path && q != []
              && Find(Created(t, path), q).value.name == q[|q| - 1] && Find(Created(t, path), q).value.properties == []
    ensures Find(t, q).Some? ==>
              && Find(Created(t, path), q).Some?
              && Find(Created(t, path), q).value.properties == Find(t, q).value.properties
              && Find(Created(t, path), q).value.name == Find(t, q).value.name
              && (!(q <= path) ==> Find(Created(t, path), q) == Find(t, q))
    decreases |path| + |q|
  {
    if path != [] && q != [] {
      var w := WithChild(t, path[0]);
      var c := Created(t, path);
      var i, j := FirstNamed(w.children, path[0]), FirstNamed(t.children, q[0]);
      FirstIs(c.children, path[0], i);
      if q[0] == path[0] {
        CreatedElsewhere(w.children[i], path[1..], q[1..]);
        PathOrder(q, path);
        assert Find(c, q) == Find(c.children[i], q[1..]);
        if j == |t.children| {
          FirstIs(w.children, path[0], j);
          EmptyHas(w.children[i], q[1..]);
        }
      } else if j < |t.children| {
        FirstIs(c.children, q[0], j);
      } else {
        assert FirstNamed(c.children, q[0]) == |c.children|;
      }
    }
  }

  lemma {:induction false} PathOrder(q: seq<seq<byte>>, path: seq<seq<byte>>)
    requires q != [] && path != [] && q[0] == path[0]
    ensures q[1..] <= path[1..] <==> q <= path
    ensures |q| > 1 ==> q[1..][|q| - 2] == q[|q| - 1]
  {
    assert q == [q[0]] + q[1..] && path == [path[0]] + path[1..];
    if q[1..] <= path[1..] {
      assert forall k :: 0 <= k < |q| ==> q[k] == path[k];
    }
  }

  lemma {:induction false} EmptyHas(t: Tree, q: seq<seq<byte>>)
    requires t.children == []
    ensures Find(t, q).Some? <==> q == []
  {
  }

  /** Creating a path changes the tree exactly when the path did not lead anywhere. */
  lemma {:induction false} CreatedSame(t: Tree, path: seq<seq<byte>>)
    ensures Created(t, path) == t <==> Find(t, path).Some?
    decreases |path|
  {
    if path != [] {
      var w := WithChild(t, path[0]);
      var i := FirstNamed(w.children, path[0]);
      if FirstNamed(t.children, path[0]) < |t.children| {
        CreatedSame(w.children[i], path[1..]);
        assert Created(t, path).children[i] == Created(w.children[i], path[1..]);
      } else {
        assert |Created(t, path).children| == |t.children| + 1;
      }
    }
  }

  // ---- nodes -------------------------------------------------------------------------------

  /** The node a path leads to. */
  ghost function Lookup(n: Node, path: seq<seq<byte>>, t: Tree): Node?
    requires n.Is(t)
    reads n, n.Repr
    decreases |path|
  {
    if path == [] then n
    else
      var i := FirstNamed(t.children, path[0]);
      if i == |t.children| then null
      else
        n.Kid(t, i);
        Lookup(n.children[i], path[1..], t.children[i])
  }

  /** The search loop of dt_find_node. */
  method FindChild(parent: Node, nm: seq<byte>, ghost t: Tree) returns (i: nat)
    requires parent.Is(t)
    ensures i == FirstNamed(t.children, nm)
  {
    i := 0;
    while i < |parent.children|
      invariant i <= |parent.children|
      invariant forall j :: 0 <= j < i ==> t.children[j].name != nm
    {
      parent.Kid(t, i);
      if parent.children[i].name == nm {
        break;
      }
      i := i + 1;
    }
    if i < |parent.children| {
      FirstIs(t.children, nm, i);
    }
  }

  /** Creating the child that is missing: appended, without a name clash before it. */
  method CreateChild(parent: Node, nm: seq<byte>, ghost t: Tree)
    requires parent.Is(t) && FirstNamed(t.children, nm) == |t.children|
    modifies parent
    ensures parent.Is(WithChild(t, nm)) && |t.children| == FirstNamed(WithChild(t, nm).children, nm)
    ensures fresh(parent.Repr - old(parent.Repr)) && old(parent.children) <= parent.children
    ensures forall j :: 0 <= j < |t.children| ==> WithChild(t, nm).children[j] == t.children[j]
    ensures forall j :: 0 <= j < |t.children| ==> old(parent.KidIs(j, t.children[j]))
  {
    var leaf := new Node(nm);
    ghost var w := WithChild(t, nm);
    forall j | 0 <= j < |t.children| ensures old(parent.KidIs(j, t.children[j])) && parent.KidIs(j, w.children[j]) {
      parent.Kid(t, j);
    }
    parent.AddChild(leaf, w, |t.children|);
    FirstIs(w.children, nm, |t.children|);
  }

  /** The step of dt_find_node that finds or creates one child. */
  method ChildFor(parent: Node, nm: seq<byte>, create: bool, ghost t: Tree) returns (i: nat)
    requires parent.Is(t)
    modifies if create then {parent} else {}
    ensures !create ==> i == FirstNamed(t.children, nm)
    ensures create ==> parent.Is(WithChild(t, nm)) && i == FirstNamed(WithChild(t, nm).children, nm)
    ensures fresh(parent.Repr - old(parent.Repr)) && old(parent.children) <= parent.children
    ensures forall q :: old(Lookup(parent, q, t)) != null ==>
                          Lookup(parent, q, if create then WithChild(t, nm) else t) == old(Lookup(parent, q, t))
  {
    i := FindChild(parent, nm, t);
    if i == |parent.children| && create {
      CreateChild(parent, nm, t);
      ghost var w := WithChild(t, nm);
      forall q | old(Lookup(parent, q, t)) != null
        ensures Lookup(parent, q, w) == old(Lookup(parent, q, t))
      {
        if q != [] {
          var j := FirstNamed(t.children, q[0]);
          FirstIs(w.children, q[0], j);
          assert old(parent.KidIs(j, t.children[j]));
          assert Lookup(parent, q, w) == Lookup(parent.children[j], q[1..], w.children[j]);
        }
      }
    }
  }

  /** What a lookup reads through addrcp and sizecp: the numbers of each node on the path, as far as
      the path leads. */
  ghost predicate PathReadable(t: Tree, path: seq<seq<byte>>, c: Cells)
    decreases |path|
  {
    && AllReadable(t.properties, c)
    && (path != [] ==>
          var i := FirstNamed(t.children, path[0]);
          i < |t.children| ==> PathReadable(t.children[i], path[1..], CellsOf(t.properties, c)))
  }

  /** The numbers after a lookup: those of the last node on the path that has them. */
  ghost function PathCells(t: Tree, path: seq<seq<byte>>, c: Cells): Cells
    requires PathReadable(t, path, c)
    decreases |path|
  {
    var c1 := CellsOf(t.properties, c);
    if path == [] || FirstNamed(t.children, path[0]) == |t.children| then c1
    else PathCells(t.children[FirstNamed(t.children, path[0])], path[1..], c1)
  }

  /** Through NULL pointers nothing has to be readable, and nothing is stored. */
  lemma {:induction false} NoCells(t: Tree, path: seq<seq<byte>>)
    ensures PathReadable(t, path, NO_CELLS) && PathCells(t, path, NO_CELLS) == NO_CELLS
    decreases |path|
  {
    if path != [] {
      var i := FirstNamed(t.children, path[0]);
      if i < |t.children| {
        NoCells(t.children[i], path[1..]);
      }
    }
  }

  /** A path created in an empty node says nothing. */
  lemma {:induction false} EmptyCells(t: Tree, path: seq<seq<byte>>, c: Cells)
    requires t.properties == [] && t.children == []
    ensures PathReadable(t, path, c) && PathCells(t, path, c) == c
  {
    CellKept([], ADDRESS_CELLS, c.addr);
    CellKept([], SIZE_CELLS, c.size);
  }

  /** Creating a path leaves the numbers it reads. */
  lemma {:induction false} CreatedCells(t: Tree, path: seq<seq<byte>>, c: Cells)
    requires PathReadable(t, path, c)
    ensures PathReadable(Created(t, path), path, c) && PathCells(Created(t, path), path, c) == PathCells(t, path, c)
    decreases |path|
  {
    if path != [] {
      var w, c1 := WithChild(t, path[0]), CellsOf(t.properties, c);
      var i := FirstNamed(w.children, path[0]);
      FirstIs(Created(t, path).children, path[0], i);
      NextCells(t, path, c, true);
      CreatedCells(w.children[i], path[1..], c1);
    }
  }

  /** What is read at the node where a lookup starts. */
  lemma {:induction false} FirstCells(t: Tree, path: seq<seq<byte>>, c: Cells)
    requires PathReadable(t, path, c)
    ensures AllReadable(t.properties, c)
    ensures path == [] || FirstNamed(t.children, path[0]) == |t.children| ==>
              PathCells(t, path, c) == CellsOf(t.properties, c)
  {
  }

  /** The step from a node to the child that is found, or created if it is missing. */
  lemma {:induction false} NextCells(t: Tree, path: seq<seq<byte>>, c: Cells, create: bool)
    requires PathReadable(t, path, c) && path != []
    requires create || FirstNamed(t.children, path[0]) < |t.children|
    ensures AllReadable(t.properties, c)
    ensures var w := if create then WithChild(t, path[0]) else t;
            var i := FirstNamed(w.children, path[0]);
            && i < |w.children| && PathReadable(w.children[i], path[1..], CellsOf(t.properties, c))
            && PathCells(w.children[i], path[1..], CellsOf(t.properties, c)) == PathCells(t, path, c)
  {
    hide AllReadable, CellsOf;
    if FirstNamed(t.children, path[0]) == |t.children| {
      var w := WithChild(t, path[0]);
      FirstIs(w.children, path[0], |t.children|);
      EmptyCells(w.children[|t.children|], path[1..], CellsOf(t.properties, c));
    }
  }

  /** dt_find_node */
  method FindNode(parent: Node, path: seq<seq<byte>>, cells: Cells, create: bool, ghost t: Tree)
    returns (r: Node?, cells': Cells)
    requires parent.Is(t) && PathReadable(t, path, cells)
    modifies if create then parent.Repr else {}
    ensures parent.Is(if create then Created(t, path) else t)
    ensures fresh(parent.Repr - old(parent.Repr))
    ensures r == Lookup(parent, path, if create then Created(t, path) else t)
    ensures cells' == PathCells(t, path, cells)
    ensures forall q :: old(Lookup(parent, q, t)) != null ==>
                          Lookup(parent, q, if create then Created(t, path) else t) == old(Lookup(parent, q, t))
    decreases |path|, 2
  {
    FirstCells(t, path, cells);
    cells' := ReadCellProps(parent, cells);
    forall q ensures Lookup(parent, q, t) == old(Lookup(parent, q, t)) {}
    if path == [] {
      return parent, cells';
    }
    r, cells' := FindNext(parent, path, cells', create, t, cells);
  }

  /** dt_find_node behind dt_read_cell_props, for a path that goes on. */
  method FindNext(parent: Node, path: seq<seq<byte>>, cells: Cells, create: bool, ghost t: Tree, ghost before: Cells)
    returns (r: Node?, cells': Cells)
    requires parent.Is(t) && path != [] && PathReadable(t, path, before) && AllReadable(t.properties, before)
    requires cells == CellsOf(t.properties, before)
    modifies if create then parent.Repr else {}
    ensures parent.Is(if create then Created(t, path) else t)
    ensures fresh(parent.Repr - old(parent.Repr))
    ensures r == Lookup(parent, path, if create then Created(t, path) else t)
    ensures cells' == PathCells(t, path, before)
    ensures forall q :: old(Lookup(parent, q, t)) != null ==>
                          Lookup(parent, q, if create then Created(t, path) else t) == old(Lookup(parent, q, t))
    decreases |path|, 2, 0
  {
    hide AllReadable, CellsOf, PathReadable, PathCells;
    var i := ChildFor(parent, path[0], create, t);
    if i == |parent.children| {
      FirstCells(t, path, before);
      return null, cells;
    }
    NextCells(t, path, before, create);
    ghost var w := if create then WithChild(t, path[0]) else t;
    r, cells' := FindBelow(parent, i, path, cells, create, w);
    assert create ==> FirstNamed(Created(t, path).children, path[0]) == i by {
      if create {
        FirstIs(Created(t, path).children, path[0], i);
      }
    }
  }

  /** The last step of dt_find_node: the rest of the path, from child i. */
  method FindBelow(parent: Node, i: nat, path: seq<seq<byte>>, cells: Cells, create: bool, ghost w: Tree)
    returns (r: Node?, cells': Cells)
    requires parent.Is(w) && path != [] && i < |w.children| && PathReadable(w.children[i], path[1..], cells)
    modifies if create then parent.Repr else {}
    ensures parent.Is(Below(w, i, path, create))
    ensures fresh(parent.Repr - old(parent.Repr))
    ensures parent.children == old(parent.children)
    ensures var c' := Below(w, i, path, create).children[i];
            parent.children[i].Is(c') && r == Lookup(parent.children[i], path[1..], c')
    ensures cells' == PathCells(w.children[i], path[1..], cells)
    ensures forall q :: old(Lookup(parent, q, w)) != null ==>
                          Lookup(parent, q, Below(w, i, path, create)) == old(Lookup(parent, q, w))
    decreases |path|, 1
  {
    hide PathReadable, PathCells;
    parent.Kid(w, i);
    r, cells' := FindIn(parent, i, path, cells, create, w);
    ghost var w' := Below(w, i, path, create);
    forall q | old(Lookup(parent, q, w)) != null
      ensures Lookup(parent, q, w') == old(Lookup(parent, q, w))
    {
      if q != [] {
        var j := FirstNamed(w.children, q[0]);
        FirstIs(w'.children, q[0], j);
        parent.Kid(w', j);
        assert old(parent.KidIs(j, w.children[j]));
        assert Lookup(parent, q, w') == Lookup(parent.children[j], q[1..], w'.children[j]);
      }
    }
  }

  /** The tree with the rest of a path created, if asked for, below child i. */
  ghost function Below(w: Tree, i: nat, path: seq<seq<byte>>, create: bool): (r: Tree)
    requires path != [] && i < |w.children|
    ensures r.name == w.name && r.properties == w.properties && |r.children| == |w.children|
    ensures forall j :: 0 <= j < |w.children| ==>
                          r.children[j].name == w.children[j].name && (j != i ==> r.children[j] == w.children[j])
  {
    if create then w.(children := w.children[i := Created(w.children[i], path[1..])]) else w
  }

  /** The recursive call of dt_find_node touches nothing but child i's subtree. */
  method FindIn(parent: Node, i: nat, path: seq<seq<byte>>, cells: Cells, create: bool, ghost w: Tree)
    returns (r: Node?, cells': Cells)
    requires parent.Is(w) && path != [] && i < |w.children| && PathReadable(w.children[i], path[1..], cells)
    requires |parent.children| == |w.children|
    modifies if create then {parent} + parent.children[i].Repr else {}
    ensures parent.Is(Below(w, i, path, create))
    ensures fresh(parent.Repr - old(parent.Repr))
    ensures parent.children == old(parent.children)
    ensures forall j :: 0 <= j < |parent.children| && j != i ==>
                          parent.children[j].Repr == old(parent.children[j].Repr)
                          && parent.children[j].Repr !! old(parent.children[i].Repr)
    ensures cells' == PathCells(w.children[i], path[1..], cells)
    ensures var c, c' := w.children[i], Below(w, i, path, create).children[i];
            && parent.children[i].Is(c') && r == Lookup(parent.children[i], path[1..], c')
            && forall q :: old(parent.children[i].Is(c) && Lookup(parent.children[i], q, c) != null) ==>
                             Lookup(parent.children[i], q, c') == old(Lookup(parent.children[i], q, c))
    decreases |path|, 0
  {
    hide PathReadable, PathCells, Created, FirstNamed;
    parent.Kid(w, i);
    var found := parent.children[i];
    forall j | 0 <= j < |w.children| && j != i
      ensures parent.children[j] in parent.children[j].Repr && parent.children[j].Repr !! found.Repr
    {
      parent.Kid(w, j);
    }
    r, cells' := FindNode(found, path[1..], cells, create, w.children[i]);
    if create {
      parent.Repr := parent.Repr + found.Repr;
      ghost var w' := Below(w, i, path, create);
      forall j | 0 <= j < |parent.children|
        ensures parent.KidIs(j, w'.children[j])
        ensures j != i ==> parent.children[j].Repr == old(parent.children[j].Repr)
      {
        assert old(parent.KidIs(j, w.children[j]));
      }
    }
  }

  /** Looking a path up on nodes is looking it up in the tree they hold. */
  lemma {:induction false} LookupFinds(n: Node, path: seq<seq<byte>>, t: Tree)
    requires n.Is(t)
    ensures match Find(t, path)
            case None => Lookup(n, path, t) == null
            case Some(c) => Lookup(n, path, t) != null && Lookup(n, path, t) in n.Repr && Lookup(n, path, t).Is(c)
    decreases |path|
  {
    if path != [] {
      var i := FirstNamed(t.children, path[0]);
      if i < |t.children| {
        n.Kid(t, i);
        LookupFinds(n.children[i], path[1..], t.children[i]);
      }
    }
  }

  /** A lookup after creating the path finds the created node, reads the same numbers and changes
      nothing. */
  method CreateThenFind(parent: Node, path: seq<seq<byte>>, cells: Cells, ghost t: Tree)
    returns (made: Node?, found: Node?, cells1: Cells, cells2: Cells)
    requires parent.Is(t) && PathReadable(t, path, cells)
    modifies parent.Repr
    ensures made == found != null && cells1 == cells2
    ensures parent.Is(Created(t, path))
  {
    made, cells1 := FindNode(parent, path, cells, true, t);
    CreatedCells(t, path, cells);
    found, cells2 := FindNode(parent, path, cells, false, Created(t, path));
    CreatedFound(t, path);
    LookupFinds(parent, path, Created(t, path));
  }
}
