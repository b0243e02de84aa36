/** modify_dt of src/main.c: from the flattened tree the boot chain got to the one it hands on. */
module ModifyDt {
  import opened Bytes
  import opened FdtFormat
  import opened DtNode
  import opened FdtReader
  import opened FdtWriter
  import opened FdtRoundTrip
  import opened DtEdit
  import opened DtCells
  import opened DtPath
  import opened DtProps
  import opened Endian
  import opened Options

  const CHOSEN := Ascii("chosen")
  const INITRD_START := Ascii("linux,initrd-start")
  const INITRD_END := Ascii("linux,initrd-end")
  const BOOTARGS := Ascii("bootargs")

  /** What modify_dt is given; an initrd at address 0 is NULL. */
  datatype Boot = Boot(initrd: nat, initrdSize: nat, bootargs: Option<seq<byte>>)

  ghost predicate GoodBoot(boot: Boot) {
    && boot.initrd < 0x1_0000_0000_0000_0000 && boot.initrdSize < 0x1_0000_0000_0000_0000
    && (boot.bootargs.Some? ==> 0 !in boot.bootargs.value)
  }

  /** The guard of modify_dt's initrd branch. */
  predicate HasInitrd(boot: Boot) {
    boot.initrd != 0 && boot.initrdSize != 0
  }

  /** uint64_t addition of the initrd's start and size. */
  function InitrdEnd(boot: Boot): nat {
    (boot.initrd + boot.initrdSize) % 0x1_0000_0000_0000_0000
  }

  /** The properties of /chosen afterwards. */
  function ChosenProps(ps: seq<Property>, boot: Boot): seq<Property>
    requires boot.initrd < 0x1_0000_0000_0000_0000
  {
    var ps1 := if HasInitrd(boot)
               then SetProp(SetProp(ps, INITRD_START, Be64(boot.initrd)), INITRD_END, Be64(InitrdEnd(boot)))
               else ps;
    if boot.bootargs.Some? then SetProp(ps1, BOOTARGS, boot.bootargs.value + [0]) else ps1
  }

  /** The root afterwards. */
  function Edited(root: Tree, boot: Boot): Tree
    requires boot.initrd < 0x1_0000_0000_0000_0000
  {
    var w := WithChild(root, CHOSEN);
    var i := FirstNamed(w.children, CHOSEN);
    w.(children := w.children[i := w.children[i].(properties := ChosenProps(w.children[i].properties, boot))])
  }

  /** The properties modify_dt adds to a node. */
  method AddBootProps(node: Node, boot: Boot)
    requires GoodBoot(boot)
    modifies node`properties
    ensures node.properties == ChosenProps(old(node.properties), boot)
  {
    if HasInitrd(boot) {
      AddUint64Prop(node, INITRD_START, boot.initrd);
      AddUint64Prop(node, INITRD_END, InitrdEnd(boot));
    }
    if boot.bootargs.Some? {
      AddStringProp(node, BOOTARGS, boot.bootargs.value);
    }
  }

  /** The edits of modify_dt, on a child of the root. */
  method EditChosen(root: Node, chosen: Node, boot: Boot, ghost w: Tree, ghost i: nat)
    requires root.Is(w) && GoodBoot(boot)
    requires i < |w.children| && i < |root.children| && chosen == root.children[i]
    modifies chosen`properties
    ensures var c := w.children[i];
            root.Is(w.(children := w.children[i := c.(properties := ChosenProps(c.properties, boot))]))
  {
    hide ChosenProps;
    root.Kid(w, i);
    forall j | 0 <= j < |w.children| && j != i ensures chosen !in root.children[j].Repr {
      root.Kid(w, j);
    }
    AddBootProps(chosen, boot);
    ghost var c := w.children[i].(properties := ChosenProps(w.children[i].properties, boot));
    forall k | 0 <= k < |chosen.children| ensures chosen.KidIs(k, c.children[k]) {
      assert old(chosen.KidIs(k, w.children[i].children[k]));
    }
    ghost var w' := w.(children := w.children[i := c]);
    forall j | 0 <= j < |root.children| ensures root.KidIs(j, w'.children[j]) {
      assert old(root.KidIs(j, w.children[j]));
    }
  }

  /** "chosen" is a path of one component. */
  lemma {:induction false} ChosenPath()
    ensures 0 !in CHOSEN && Split(CHOSEN) == [CHOSEN]
  {
    var s := "chosen";
    assert s[0] == 'c' && s[1] == 'h' && s[2] == 'o' && s[3] == 's' && s[4] == 'e' && s[5] == 'n';
    FirstSlashIs(CHOSEN, 6);
  }

  lemma {:induction false} ChosenCreated(root: Tree)
    ensures Created(root, [CHOSEN]) == WithChild(root, CHOSEN)
  {
    var w := WithChild(root, CHOSEN);
    var i := FirstNamed(w.children, CHOSEN);
    assert [CHOSEN][1..] == [];
    assert w.children[i := w.children[i]] == w.children;
  }

  lemma {:induction false} NamesGood()
    ensures 0 !in CHOSEN && 0 !in INITRD_START && 0 !in INITRD_END && 0 !in BOOTARGS
    ensures |INITRD_START| == 18 && |INITRD_END| == 16 && |BOOTARGS| == 8
  {
    NulFreeAscii("chosen");
    NulFreeAscii("linux,initrd-start");
    NulFreeAscii("linux,initrd-end");
    NulFreeAscii("bootargs");
  }

  lemma {:induction false} NulFreeAscii(s: string)
    requires forall i :: 0 <= i < |s| ==> 0 as char < s[i] < 128 as char
    ensures 0 !in Ascii(s)
  {
  }

  lemma {:induction false} ChosenPropsGood(ps: seq<Property>, boot: Boot, p: Property)
    requires GoodBoot(boot) && p in ChosenProps(ps, boot)
    requires forall q :: q in ps ==> 0 !in q.name
    ensures 0 !in p.name
  {
    NamesGood();
  }

  lemma {:induction false} EditedGood(root: Tree, boot: Boot)
    requires NulFree(root) && GoodBoot(boot)
    ensures NulFree(Edited(root, boot))
  {
    NamesGood();
    hide ChosenProps, HasInitrd, InitrdEnd;
    var w := WithChild(root, CHOSEN);
    var i := FirstNamed(w.children, CHOSEN);
    var e := Edited(root, boot);
    assert NulFree(Tree(CHOSEN, [], []));
    assert NulFree(w.children[i]);
    forall p | p in e.children[i].properties ensures 0 !in p.name {
      ChosenPropsGood(w.children[i].properties, boot, p);
    }
    assert forall k :: 0 <= k < |w.children| ==> NulFree(w.children[k]);
    assert NulFree(e.children[i]);
  }

  /** modify_dt: the buffer receives the edited tree, flattened; for a source blob whose reserve
      map follows its header, it is a blob that means the edited tree. */
  method Modify(blob: seq<byte>, ghost m: Blob, dest: array<byte>, boot: Boot)
    requires IsBlob(blob, m) && GoodBoot(boot)
    requires FlatSize(m.(root := Edited(m.root, boot))) <= dest.Length
    requires FlatSize(m.(root := Edited(m.root, boot))) < 0x1_0000_0000
    modifies dest
    ensures var m' := m.(root := Edited(m.root, boot));
            && Flattened(dest[..FlatSize(m')], blob, m')
            && (Word32(blob, 16) == m.headerSize ==> IsBlob(dest[..FlatSize(m')], m'))
            && forall i :: FlatSize(m') <= i < dest.Length ==> dest[i] == old(dest[i])
  {
    ghost var m' := m.(root := Edited(m.root, boot));
    ghost var w := WithChild(m.root, CHOSEN);
    BlobGood(blob, m);
    EditedGood(m.root, boot);
    ChosenPath();
    ChosenCreated(m.root);
    var dt := Unflatten(blob, m);
    NoCells(m.root, [CHOSEN]);
    var chosen, _ := FindNodeByPath(dt.root, CHOSEN, NO_CELLS, true, m.root);
    ghost var i := FirstNamed(w.children, CHOSEN);
    dt.root.Kid(w, i);
    assert chosen == dt.root.children[i];
    EditChosen(dt.root, chosen, boot, w, i);
    DtFlatten(dt, blob, m', dest);
    if Word32(blob, 16) == m.headerSize {
      FlattenedIsBlob(dest[..FlatSize(m')], blob, m');
    }
  }

  // ---- what the edit changes and what it keeps ----------------------------------------------

  /** The properties of the first child of the root that is named "chosen"; none without one. */
  function PropsOfChosen(root: Tree): seq<Property> {
    match Find(root, [Ascii("chosen")])
    case None => []
    case Some(c) => c.properties
  }

  /** d is the 64-bit number n, big-endian. */
  predicate IsCell64(d: Option<seq<byte>>, n: nat) {
    d.Some? && |d.value| == 8 && BigEndian(d.value) == n
  }

  /** /chosen exists afterwards.  With an initrd that is neither NULL nor empty it carries the bounds of
      the initrd, big-endian, the end modulo 2^64; otherwise these properties say what they said.
      With bootargs it carries them with their NUL; otherwise that property says what it said.  Its
      other properties are what they were. */
  lemma {:induction false} EditedChosen(root: Tree, boot: Boot, other: seq<byte>)
    requires GoodBoot(boot)
    ensures Find(Edited(root, boot), [Ascii("chosen")]).Some?
    ensures var was, now := PropsOfChosen(root), PropsOfChosen(Edited(root, boot));
            var start, end, args := Ascii("linux,initrd-start"), Ascii("linux,initrd-end"), Ascii("bootargs");
            && (if boot.initrd != 0 && boot.initrdSize != 0 then
                  && IsCell64(GetProp(now, start), boot.initrd)
                  && IsCell64(GetProp(now, end), (boot.initrd + boot.initrdSize) % 0x1_0000_0000_0000_0000)
                else
                  GetProp(now, start) == GetProp(was, start) && GetProp(now, end) == GetProp(was, end))
            && GetProp(now, args) == (match boot.bootargs
                                      case Some(s) => Some(s + [0])
                                      case None => GetProp(was, args))
            && (other != start && other != end && other != args ==> GetProp(now, other) == GetProp(was, other))
  {
    hide ChosenProps, GetProp, Be64, BigEndian, Edited, PropsOfChosen, Ascii, Find;
    ChosenIs(root, boot);
    NamesGood();
    var ps := PropsOfChosen(root);
    ChosenSays(ps, boot, INITRD_START);
    ChosenSays(ps, boot, INITRD_END);
    ChosenSays(ps, boot, BOOTARGS);
    ChosenSays(ps, boot, other);
    Be64Is(boot.initrd);
    Be64Is(InitrdEnd(boot));
  }

  lemma {:induction false} ChosenIs(root: Tree, boot: Boot)
    requires GoodBoot(boot)
    ensures Find(Edited(root, boot), [CHOSEN]).Some?
    ensures PropsOfChosen(Edited(root, boot)) == ChosenProps(PropsOfChosen(root), boot)
  {
    hide ChosenProps;
    var w := WithChild(root, CHOSEN);
    var i := FirstNamed(w.children, CHOSEN);
    FirstIs(Edited(root, boot).children, CHOSEN, i);
    assert [CHOSEN][1..] == [];
    if FirstNamed(root.children, CHOSEN) == |root.children| {
      FirstIs(w.children, CHOSEN, |root.children|);
    }
  }

  /** What each name says among the properties of /chosen afterwards. */
  lemma {:induction false} ChosenSays(ps: seq<Property>, boot: Boot, nm: seq<byte>)
    requires GoodBoot(boot)
    ensures GetProp(ChosenProps(ps, boot), nm)
            == if boot.bootargs.Some? && nm == BOOTARGS then Some(boot.bootargs.value + [0])
               else if HasInitrd(boot) && nm == INITRD_END then Some(Be64(InitrdEnd(boot)))
               else if HasInitrd(boot) && nm == INITRD_START then Some(Be64(boot.initrd))
               else GetProp(ps, nm)
  {
    var ps1 := SetProp(ps, INITRD_START, Be64(boot.initrd));
    var ps2 := SetProp(ps1, INITRD_END, Be64(InitrdEnd(boot)));
    GetSet(ps, INITRD_START, Be64(boot.initrd), nm);
    GetSet(ps1, INITRD_END, Be64(InitrdEnd(boot)), nm);
    if boot.bootargs.Some? {
      GetSet(if HasInitrd(boot) then ps2 else ps, BOOTARGS, boot.bootargs.value + [0], nm);
    }
  }

  function NamesOf(ps: seq<Property>): seq<seq<byte>> {
    seq(|ps|, i requires 0 <= i < |ps| => ps[i].name)
  }

  function WithName(names: seq<seq<byte>>, nm: seq<byte>): seq<seq<byte>> {
    if nm in names then names else names + [nm]
  }

  /** The properties of /chosen keep their order; those that are added come last: the bounds of the
      initrd, start before end, and then the bootargs. */
  lemma {:induction false} ChosenOrder(root: Tree, boot: Boot)
    requires GoodBoot(boot)
    ensures var was := NamesOf(PropsOfChosen(root));
            var start, end, args := Ascii("linux,initrd-start"), Ascii("linux,initrd-end"), Ascii("bootargs");
            var bounds := if boot.initrd != 0 && boot.initrdSize != 0 then WithName(WithName(was, start), end) else was;
            NamesOf(PropsOfChosen(Edited(root, boot))) == if boot.bootargs.Some? then WithName(bounds, args) else bounds
  {
    hide PropsOfChosen, Edited, SetProp, NamesOf, WithName, Ascii, Be64;
    ChosenIs(root, boot);
    var ps := PropsOfChosen(root);
    var ps1 := SetProp(ps, INITRD_START, Be64(boot.initrd));
    var ps2 := SetProp(ps1, INITRD_END, Be64(InitrdEnd(boot)));
    SetNames(ps, INITRD_START, Be64(boot.initrd));
    SetNames(ps1, INITRD_END, Be64(InitrdEnd(boot)));
    if boot.bootargs.Some? {
      SetNames(if HasInitrd(boot) then ps2 else ps, BOOTARGS, boot.bootargs.value + [0]);
    }
  }

  lemma {:induction false} SetNames(ps: seq<Property>, nm: seq<byte>, data: seq<byte>)
    ensures NamesOf(SetProp(ps, nm, data)) == WithName(NamesOf(ps), nm)
  {
    SetOrder(ps, nm, data);
    var names, i := NamesOf(ps), FirstProp(ps, nm);
    if i < |ps| {
      assert names[i] == nm;
    }
  }

  /** Every node other than the root and /chosen is what it was, and so are the root's own
      properties: a path leads to the same tree as before. */
  lemma {:induction false} EditedKeeps(root: Tree, boot: Boot, path: seq<seq<byte>>)
    requires GoodBoot(boot)
    requires path != [] && path != [Ascii("chosen")]
    ensures Find(Edited(root, boot), path) == Find(root, path)
    ensures Edited(root, boot).properties == root.properties && Edited(root, boot).name == root.name
  {
    var w := WithChild(root, CHOSEN);
    var e := Edited(root, boot);
    var i, j := FirstNamed(w.children, CHOSEN), FirstNamed(root.children, path[0]);
    if path[0] == CHOSEN {
      FirstIs(e.children, CHOSEN, i);
      assert path[1..] != [];
      assert Find(e, path) == Find(e.children[i], path[1..]);
      assert e.children[i].children == w.children[i].children;
    } else if j < |root.children| {
      FirstIs(e.children, path[0], j);
    } else {
      assert FirstNamed(e.children, path[0]) == |e.children|;
    }
  }

  /** No child of the root moves or vanishes; at most one is added, last. */
  lemma {:induction false} EditedOrder(root: Tree, boot: Boot)
    requires GoodBoot(boot)
    ensures var e := Edited(root, boot);
            && |e.children| == |root.children| + (if Find(root, [CHOSEN]).Some? then 0 else 1)
            && forall j :: 0 <= j < |root.children| ==>
                             e.children[j].name == root.children[j].name
                             && e.children[j].children == root.children[j].children
                             && (j != FirstNamed(root.children, CHOSEN) ==> e.children[j] == root.children[j])
  {
    assert [CHOSEN][1..] == [];
    var i := FirstNamed(WithChild(root, CHOSEN).children, CHOSEN);
    if FirstNamed(root.children, CHOSEN) == |root.children| {
      FirstIs(WithChild(root, CHOSEN).children, CHOSEN, |root.children|);
    }
  }
}
