/** What main of src/main.c does between the image on the disk and the device tree it hands on. */
module BootChain {
  import opened Bytes
  import opened FdtFormat
  import opened SdCard
  import opened BlockRead
  import Image = GptlImage
  import opened GptDisk
  import opened Gptl
  import opened FdtWriter
  import opened ModifyDt
  import opened Options

  /** const char *: the string that gptl_bootargs points to. */
  method BootArgs(bootargs: Option<seq<byte>>, ghost cmdline: Option<seq<byte>>) returns (args: Option<seq<byte>>)
    requires match cmdline
             case None => bootargs == None
             case Some(c) => 0 !in c && bootargs == Some(c + [0])
    ensures args == cmdline
  {
    match bootargs
    case None => args := None;
    case Some(s) =>
      var n := StrLen(s, 0, |s|, cmdline.value);
      args := Some(s[..n]);
  }

  /** What modify_dt makes of a device tree after an image with this input has been loaded. */
  ghost function Prepared(m: Blob, boot: Boot): Blob
    requires boot.initrd < 0x1_0000_0000_0000_0000
  {
    m.(root := Edited(m.root, boot))
  }

  /** The size of a packed part, as main reads it from the header. */
  method SizeOf(loader: Loader, k: nat, ghost disk: seq<byte>, ghost e: seq<byte>, ghost image: seq<byte>,
                ghost input: Image.Input) returns (size: nat)
    requires k < 4 && loader.Valid() && |e| == ENTRY_SIZE && loader.At(disk, e)
    requires Image.IsImage(image, input) && Gptl.Holds(disk, e, image)
    ensures size == Image.PartSize(input.parts[k])
  {
    PartFound(disk, e, image, input, k);
    size := loader.Field(k, disk);
  }

  /** fdt = malloc(fdt_size); gptl_load_fdt(fdt). */
  method LoadFdt(loader: Loader, ghost disk: seq<byte>, ghost e: seq<byte>, ghost image: seq<byte>,
                 ghost input: Image.Input) returns (fdt: array<byte>, ok: bool)
    requires loader.Valid() && |e| == ENTRY_SIZE && loader.At(disk, e)
    requires IsDisk(disk) && Faithful(loader.spi.card, disk)
    requires Image.IsImage(image, input) && Gptl.Holds(disk, e, image)
    modifies loader.spi
    ensures fresh(fdt)
    ensures Reliable(loader.spi.card, disk) ==> ok
    ensures ok && Image.NonEmpty(input.parts[3]).Some? ==> fdt[..] == input.parts[3].value
  {
    PartFound(disk, e, image, input, 3);
    hide Reliable, Faithful, Image.IsImage, Gptl.Holds, Word32, HasHeader, StartOf;
    var fdtSize := loader.Field(3, disk);
    fdt := new byte[fdtSize];
    var size;
    size, ok := loader.Load(3, fdt, disk);
    assert fdt[..] == fdt[..size];
  }

  /** The loads of hart 0: the device tree, the size of the initrd, and the command line. */
  method LoadTree(loader: Loader, ghost disk: seq<byte>, ghost i: nat, ghost image: seq<byte>, ghost input: Image.Input)
    returns (done: bool, fdt: array<byte>, initrdSize: nat, args: Option<seq<byte>>)
    requires loader.Valid() && loader.Unset() && Faithful(loader.spi.card, disk)
    requires Installed(loader.spi.card, disk, i, image, input)
    requires Image.NonEmpty(input.parts[3]).Some?
    modifies loader, loader.spi, loader.entry, loader.header
    ensures Reliable(loader.spi.card, disk) ==> done && args == input.cmdline
    ensures args == None || args == input.cmdline
    ensures fresh(fdt)
    ensures done ==> fdt[..] == input.parts[3].value && initrdSize == Image.PartSize(input.parts[2])
  {
    CmdlineGood(image, input);
    hide Reliable, Faithful, HasHeader, Image.IsImage, Gptl.Holds, Word32, FirstGptl, Sole;
    ghost var e := EntryOf(disk, i);
    done, args, initrdSize := false, None, 0;
    var r := FindImage(loader, disk, i, image, input);
    if r != Found {
      fdt := new byte[0];
      return;
    }
    initrdSize := SizeOf(loader, 2, disk, e, image, input);
    args := BootArgs(loader.bootargs, if loader.bootargs.Some? then input.cmdline else None);
    fdt, done := LoadFdt(loader, disk, e, image, input);
  }

  /** The path of hart 0 for an image that holds a device tree: search_gptl, gptl_load_fdt into a new
      buffer, modify_dt.  Whatever was packed, the next stage gets a device tree that is the packed
      one with the packed command line and the bounds of the initrd in /chosen.  A failed read of the
      command line costs the command line; any other failed read ends this path. */
  method PrepareTree(loader: Loader, ghost disk: seq<byte>, ghost i: nat, ghost image: seq<byte>,
                     ghost input: Image.Input, ghost m: Blob, initrd: nat, newFdt: array<byte>)
    returns (done: bool, args: Option<seq<byte>>)
    requires loader.Valid() && loader.Unset() && Faithful(loader.spi.card, disk)
    requires Installed(loader.spi.card, disk, i, image, input)
    requires input.parts[3].Some? && IsBlob(input.parts[3].value, m)
    requires Word32(input.parts[3].value, 16) == m.headerSize && initrd < 0x1_0000_0000_0000_0000
    requires newFdt != loader.entry && newFdt != loader.header
    requires forall a :: a == None || a == input.cmdline ==>
               Fits(Prepared(m, Boot(initrd, Image.PartSize(input.parts[2]), a)), newFdt.Length)
    modifies loader, loader.spi, loader.entry, loader.header, newFdt
    ensures Reliable(loader.spi.card, disk) ==> done && args == input.cmdline
    ensures args == None || args == input.cmdline
    ensures !done ==> newFdt[..] == old(newFdt[..])
    ensures var m' := Prepared(m, Boot(initrd, Image.PartSize(input.parts[2]), args));
            done ==>
              && FlatSize(m') <= newFdt.Length && IsBlob(newFdt[..FlatSize(m')], m')
              && forall j :: FlatSize(m') <= j < newFdt.Length ==> newFdt[j] == old(newFdt[j])
  {
    CmdlineGood(image, input);
    PartsFit(image, input);
    assert input.parts[3].value != [];
    hide Reliable, Faithful, FlatSize, Edited, IsBlob, Word32, Installed, Flattened, Image.IsImage;
    var fdt, initrdSize;
    done, fdt, initrdSize, args := LoadTree(loader, disk, i, image, input);
    if done {
      Modify(fdt[..], m, newFdt, Boot(initrd, initrdSize, args));
    }
  }

  /** No part is larger than a header field can say. */
  lemma {:induction false} PartsFit(image: seq<byte>, input: Image.Input)
    requires Image.IsImage(image, input)
    ensures Image.PartSize(input.parts[2]) < 0x1_0000_0000
  {
    assert Image.PartAt(image, input, 2);
  }

  ghost predicate Fits(m: Blob, length: nat) {
    FlatSize(m) <= length && FlatSize(m) < 0x1_0000_0000
  }

  lemma {:induction false} CmdlineGood(image: seq<byte>, input: Image.Input)
    requires Image.IsImage(image, input)
    ensures input.cmdline.Some? ==> 0 !in input.cmdline.value
  {
  }
}
