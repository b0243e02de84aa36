/** The #address-cells and #size-cells that a path lookup returns, in terms of the nodes on the path. */
module DtPathCells {
  import opened Bytes
  import opened Endian
  import opened FdtFormat
  import opened DtCells
  import opened DtEdit
  import opened Options

  /** The number that is asked for by its name. */
  function Said(c: Cells, nm: seq<byte>): Option<nat> {
    if nm == Ascii("#address-cells") then c.addr else c.size
  }

  /** From depth k on, no node on the path has a property of the name. */
  ghost predicate NoneFrom(t: Tree, path: seq<seq<byte>>, k: nat, nm: seq<byte>) {
    forall l, p :: k <= l <= |path| && Find(t, path[..l]).Some? && p in Find(t, path[..l]).value.properties ==>
                     p.name != nm
  }

  /** What lies on the rest of the path is on the path. */
  lemma {:induction false} FindRest(t: Tree, path: seq<seq<byte>>, l: nat)
    requires path != [] && l < |path| && FirstNamed(t.children, path[0]) < |t.children|
    ensures Find(t, path[..l + 1]) == Find(t.children[FirstNamed(t.children, path[0])], path[1..][..l])
  {
    assert path[..l + 1][1..] == path[1..][..l];
  }

  lemma {:induction false} NoneOnRest(t: Tree, path: seq<seq<byte>>, k: nat, nm: seq<byte>)
    requires NoneFrom(t, path, k, nm) && path != [] && FirstNamed(t.children, path[0]) < |t.children|
    ensures NoneFrom(t.children[FirstNamed(t.children, path[0])], path[1..], if k == 0 then 0 else k - 1, nm)
  {
    var c := t.children[FirstNamed(t.children, path[0])];
    forall l, p | 0 <= l < |path| && k <= l + 1 && Find(c, path[1..][..l]).Some?
                  && p in Find(c, path[1..][..l]).value.properties
      ensures p.name != nm
    {
      FindRest(t, path, l);
    }
  }

  /** A number that no node on the path has, or that is not asked for, stays what it was. */
  lemma {:induction false} NotOnPath(t: Tree, path: seq<seq<byte>>, c: Cells, nm: seq<byte>)
    requires PathReadable(t, path, c) && (nm == Ascii("#address-cells") || nm == Ascii("#size-cells"))
    requires Said(c, nm) == None || NoneFrom(t, path, 0, nm)
    ensures Said(PathCells(t, path, c), nm) == Said(c, nm)
    decreases |path|
  {
    hide Ascii;
    var c1 := CellsOf(t.properties, c);
    assert path[..0] == [] && Find(t, path[..0]) == Some(t);
    assert NoneFrom(t, path, 0, nm) ==> forall p :: p in t.properties ==> p.name != nm;
    if nm == ADDRESS_CELLS {
      CellKept(t.properties, ADDRESS_CELLS, c.addr);
    } else {
      CellKept(t.properties, SIZE_CELLS, c.size);
    }
    if path != [] && FirstNamed(t.children, path[0]) < |t.children| {
      if NoneFrom(t, path, 0, nm) {
        NoneOnRest(t, path, 0, nm);
      }
      NotOnPath(t.children[FirstNamed(t.children, path[0])], path[1..], c1, nm);
    }
  }

  /** A number that is asked for becomes what the last node on the path that has it says: the big-endian
      number in the first four bytes of its last property of the name. */
  lemma {:induction false} LastOnPath(t: Tree, path: seq<seq<byte>>, c: Cells, nm: seq<byte>, k: nat, i: nat)
    requires PathReadable(t, path, c) && (nm == Ascii("#address-cells") || nm == Ascii("#size-cells"))
    requires Said(c, nm).Some? && k <= |path| && Find(t, path[..k]).Some? && NoneFrom(t, path, k + 1, nm)
    requires var ps := Find(t, path[..k]).value.properties;
             i < |ps| && ps[i].name == nm && forall j :: i < j < |ps| ==> ps[j].name != nm
    ensures var d := Find(t, path[..k]).value.properties[i].data;
            |d| >= 4 && Said(PathCells(t, path, c), nm) == Some(BigEndian(d[..4]))
    decreases |path|
  {
    hide Ascii, BigEndian;
    var c1 := CellsOf(t.properties, c);
    if k > 0 {
      assert path[..k][0] == path[0];
      NoneOnRest(t, path, k + 1, nm);
      FindRest(t, path, k - 1);
      LastOnPath(t.children[FirstNamed(t.children, path[0])], path[1..], c1, nm, k - 1, i);
    } else {
      assert path[..0] == [];
      CellsSay(t.properties, c, i);
      if path != [] && FirstNamed(t.children, path[0]) < |t.children| {
        NoneOnRest(t, path, 1, nm);
        NotOnPath(t.children[FirstNamed(t.children, path[0])], path[1..], c1, nm);
      }
    }
  }
}
