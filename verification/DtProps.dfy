/** Properties of one node: dt_add_bin_prop, dt_find_bin_prop, dt_delete_prop and the functions
    that build property values. */
module DtProps {
  import opened Bytes
  import opened FdtFormat
  import opened DtNode
  import opened Options

  /** The index of the first property with a name; their number if there is none. */
  function FirstProp(ps: seq<Property>, nm: seq<byte>): (i: nat)
    ensures i <= |ps| && (i < |ps| ==> ps[i].name == nm)
    ensures forall j :: 0 <= j < i ==> ps[j].name != nm
  {
    if ps == [] then 0 else if ps[0].name == nm then 0 else 1 + FirstProp(ps[1..], nm)
  }

  /** The value a name has. */
  function GetProp(ps: seq<Property>, nm: seq<byte>): Option<seq<byte>> {
    var i := FirstProp(ps, nm);
    if i < |ps| then Some(ps[i].data) else None
  }

  /** The properties with a name given a value: changed in place, or appended. */
  function SetProp(ps: seq<Property>, nm: seq<byte>, data: seq<byte>): seq<Property> {
    var i := FirstProp(ps, nm);
    if i < |ps| then ps[i := Property(nm, data)] else ps + [Property(nm, data)]
  }

  /** The properties without the first one of a name. */
  function DeleteProp(ps: seq<Property>, nm: seq<byte>): seq<Property> {
    var i := FirstProp(ps, nm);
    if i < |ps| then ps[..i] + ps[i + 1..] else ps
  }

  lemma {:induction false} FirstPropIs(ps: seq<Property>, nm: seq<byte>, i: nat)
    requires i <= |ps| && (i < |ps| ==> ps[i].name == nm)
    requires forall j :: 0 <= j < i ==> ps[j].name != nm
    ensures FirstProp(ps, nm) == i
  {
    var k := FirstProp(ps, nm);
    assert !(i < k) && !(k < i);
  }

  /** Setting a property changes what its name says and what no other name says. */
  lemma {:induction false} GetSet(ps: seq<Property>, nm: seq<byte>, data: seq<byte>, other: seq<byte>)
    ensures GetProp(SetProp(ps, nm, data), other) == if other == nm then Some(data) else GetProp(ps, other)
  {
    var qs := SetProp(ps, nm, data);
    var i, j := FirstProp(ps, nm), FirstProp(ps, other);
    if other == nm {
      FirstPropIs(qs, nm, i);
    } else if j < |ps| {
      FirstPropIs(qs, other, j);
    } else {
      FirstPropIs(qs, other, |qs|);
    }
  }

  /** Setting keeps the order of the names, a new name coming last. */
  lemma {:induction false} SetOrder(ps: seq<Property>, nm: seq<byte>, data: seq<byte>)
    ensures var qs := SetProp(ps, nm, data);
            && |ps| <= |qs| <= |ps| + 1
            && (forall i :: 0 <= i < |ps| ==> qs[i].name == ps[i].name && (ps[i].name != nm ==> qs[i] == ps[i]))
            && (forall i, j :: 0 <= j < i < |ps| && qs[i] != ps[i] ==> ps[j].name != nm)
            && (|qs| > |ps| ==> qs[|ps|] == Property(nm, data) && GetProp(ps, nm) == None)
  {
  }

  /** Deleting takes away the first property of the name, keeps the order of the others, and changes
      what no other name says. */
  lemma {:induction false} DeleteIs(ps: seq<Property>, nm: seq<byte>, other: seq<byte>)
    ensures var qs := DeleteProp(ps, nm);
            if GetProp(ps, nm) == None then qs == ps
            else exists i :: 0 <= i < |ps| && ps[i].name == nm && (forall j :: 0 <= j < i ==> ps[j].name != nm)
                             && qs == ps[..i] + ps[i + 1..]
    ensures other != nm ==> GetProp(DeleteProp(ps, nm), other) == GetProp(ps, other)
  {
    var i, j := FirstProp(ps, nm), FirstProp(ps, other);
    if i < |ps| && other != nm {
      FirstPropIs(DeleteProp(ps, nm), other, if j < i then j else j - 1);
    }
  }

  /** Deleting a property that was added takes the addition back. */
  lemma {:induction false} DeleteSet(ps: seq<Property>, nm: seq<byte>, data: seq<byte>)
    requires GetProp(ps, nm) == None
    ensures DeleteProp(SetProp(ps, nm, data), nm) == ps
  {
    FirstPropIs(SetProp(ps, nm, data), nm, |ps|);
  }

  /** The search loop the three functions share. */
  method Search(node: Node, nm: seq<byte>) returns (i: nat)
    ensures i == FirstProp(node.properties, nm)
  {
    i := 0;
    while i < |node.properties| && node.properties[i].name != nm
      invariant i <= |node.properties|
      invariant forall j :: 0 <= j < i ==> node.properties[j].name != nm
    {
      i := i + 1;
    }
    FirstPropIs(node.properties, nm, i);
  }

  /** dt_add_bin_prop */
  method AddBinProp(node: Node, nm: seq<byte>, data: seq<byte>)
    modifies node`properties
    ensures node.properties == SetProp(old(node.properties), nm, data)
  {
    var i := Search(node, nm);
    if i < |node.properties| {
      node.properties := node.properties[i := Property(nm, data)];
    } else {
      node.properties := node.properties + [Property(nm, data)];
    }
  }

  /** dt_find_bin_prop */
  method FindBinProp(node: Node, nm: seq<byte>) returns (r: Option<seq<byte>>)
    ensures r == GetProp(node.properties, nm)
  {
    var i := Search(node, nm);
    r := if i < |node.properties| then Some(node.properties[i].data) else None;
  }

  /** dt_delete_prop */
  method DeleteBinProp(node: Node, nm: seq<byte>)
    modifies node`properties
    ensures node.properties == DeleteProp(old(node.properties), nm)
  {
    var i := Search(node, nm);
    if i < |node.properties| {
      node.properties := node.properties[..i] + node.properties[i + 1..];
    }
  }

  /** dt_add_uint64_t_prop */
  method AddUint64Prop(node: Node, nm: seq<byte>, val: nat)
    requires val < 0x1_0000_0000_0000_0000
    modifies node`properties
    ensures node.properties == SetProp(old(node.properties), nm, Be64(val))
  {
    AddBinProp(node, nm, Be64(val));
  }

  /** dt_add_string_prop: the value is the string with its NUL. */
  method AddStringProp(node: Node, nm: seq<byte>, str: seq<byte>)
    modifies node`properties
    ensures node.properties == SetProp(old(node.properties), nm, str + [0])
  {
    AddBinProp(node, nm, str + [0]);
  }
}
