/** #address-cells and #size-cells: dt_read_cell_props. */
module DtCells {
  import opened Bytes
  import opened FdtFormat
  import opened DtNode
  import opened Endian
  import opened Options

  const ADDRESS_CELLS: seq<byte> := Ascii("#address-cells")
  const SIZE_CELLS: seq<byte> := Ascii("#size-cells")

  /** What addrcp and sizecp point to; None for a NULL pointer. */
  datatype Cells = Cells(addr: Option<nat>, size: Option<nat>)

  const NO_CELLS := Cells(None, None)

  /** If the number is asked for, every property of that name has room for it. */
  ghost predicate Readable(ps: seq<Property>, nm: seq<byte>, was: Option<nat>) {
    was.Some? ==> forall i :: 0 <= i < |ps| && ps[i].name == nm ==> |ps[i].data| >= 4
  }

  ghost predicate AllReadable(ps: seq<Property>, c: Cells) {
    Readable(ps, ADDRESS_CELLS, c.addr) && Readable(ps, SIZE_CELLS, c.size)
  }

  /** The number after the properties have been looked at from first to last. */
  function CellOf(ps: seq<Property>, nm: seq<byte>, was: Option<nat>): (r: Option<nat>)
    requires Readable(ps, nm, was)
    ensures r.Some? == was.Some?
  {
    if was == None || ps == [] then was
    else
      var p := ps[|ps| - 1];
      if p.name == nm then Some(Word32(p.data, 0)) else CellOf(ps[..|ps| - 1], nm, was)
  }

  function CellsOf(ps: seq<Property>, c: Cells): Cells
    requires AllReadable(ps, c)
  {
    Cells(CellOf(ps, ADDRESS_CELLS, c.addr), CellOf(ps, SIZE_CELLS, c.size))
  }

  /** The last property of the name counts. */
  lemma {:induction false} LastCellCounts(ps: seq<Property>, nm: seq<byte>, was: Option<nat>, i: nat)
    requires Readable(ps, nm, was) && was.Some?
    requires i < |ps| && ps[i].name == nm && forall j :: i < j < |ps| ==> ps[j].name != nm
    ensures |ps[i].data| >= 4 && CellOf(ps, nm, was) == Some(Word32(ps[i].data, 0))
    decreases |ps|
  {
    if i < |ps| - 1 {
      LastCellCounts(ps[..|ps| - 1], nm, was, i);
    }
  }

  /** Without such a property, and through a NULL pointer, nothing is stored. */
  lemma {:induction false} CellKept(ps: seq<Property>, nm: seq<byte>, was: Option<nat>)
    requires was == None || forall j :: 0 <= j < |ps| ==> ps[j].name != nm
    ensures CellOf(ps, nm, was) == was
    decreases |ps|
  {
    if was.Some? && ps != [] {
      CellKept(ps[..|ps| - 1], nm, was);
    }
  }

  /** dt_read_cell_props */
  method ReadCellProps(node: Node, cells: Cells) returns (r: Cells)
    requires AllReadable(node.properties, cells)
    ensures r == CellsOf(node.properties, cells)
  {
    var ps := node.properties;
    var addr, size := cells.addr, cells.size;
    for k := 0 to |ps|
      invariant addr == CellOf(ps[..k], ADDRESS_CELLS, cells.addr)
      invariant size == CellOf(ps[..k], SIZE_CELLS, cells.size)
    {
      assert ps[..k + 1][..k] == ps[..k];
      if addr.Some? && ps[k].name == ADDRESS_CELLS {
        addr := Some(Word32(ps[k].data, 0));
      }
      if size.Some? && ps[k].name == SIZE_CELLS {
        size := Some(Word32(ps[k].data, 0));
      }
    }
    assert ps[..|ps|] == ps;
    r := Cells(addr, size);
  }

  /** "#address-cells" and "#size-cells" are big-endian numbers in the first four bytes of a value. */
  lemma {:induction false} CellsSay(ps: seq<Property>, c: Cells, i: nat)
    requires AllReadable(ps, c) && i < |ps| && forall j :: i < j < |ps| ==> ps[j].name != ps[i].name
    ensures ps[i].name == Ascii("#address-cells") && c.addr.Some? ==>
              |ps[i].data| >= 4 && CellsOf(ps, c).addr == Some(BigEndian(ps[i].data[..4]))
    ensures ps[i].name == Ascii("#size-cells") && c.size.Some? ==>
              |ps[i].data| >= 4 && CellsOf(ps, c).size == Some(BigEndian(ps[i].data[..4]))
  {
    hide Ascii, BigEndian;
    if ps[i].name == ADDRESS_CELLS && c.addr.Some? {
      LastCellCounts(ps, ADDRESS_CELLS, c.addr, i);
      Word32Is(ps[i].data, 0);
    }
    if ps[i].name == SIZE_CELLS && c.size.Some? {
      LastCellCounts(ps, SIZE_CELLS, c.size, i);
      Word32Is(ps[i].data, 0);
    }
  }
}
