/** GPTL images: create_image and extract_image of util/gptl-tool/main.c. */
module GptlImage {
  import opened Bytes
  import opened Endian
  import opened Options

  const MAGIC := 0x4750544c
  /** sizeof(struct gptl_header) */
  const HEADER := 48
  const PAGE := 4096

  /** What is packed: a kernel command line and four files, each of which may be missing:
      opensbi, kernel, initrd, fdt. */
  datatype Input = Input(cmdline: Option<seq<byte>>, parts: seq<Option<seq<byte>>>)

  ghost predicate GoodInput(input: Input) {
    |input.parts| == 4 && (input.cmdline.Some? ==> 0 !in input.cmdline.value)
  }

  /** ALIGN_UP(n, 4096) */
  function AlignPage(n: nat): (r: nat)
    ensures n <= r < n + PAGE && r % PAGE == 0
  {
    (n + PAGE - 1) / PAGE * PAGE
  }

  function HeaderSize(input: Input): nat {
    HEADER + if input.cmdline.Some? then |input.cmdline.value| + 1 else 0
  }

  function PartSize(part: Option<seq<byte>>): nat {
    if part.Some? then |part.value| else 0
  }

  /** Where part k starts, if it is there. */
  function PartOff(input: Input, k: nat): nat
    requires k < |input.parts|
  {
    AlignPage(if k == 0 then HeaderSize(input) else PartOff(input, k - 1) + PartSize(input.parts[k - 1]))
  }

  function TotalSize(input: Input): nat
    requires |input.parts| == 4
  {
    PartOff(input, 3) + PartSize(input.parts[3])
  }

  /** The offset and size fields of part k. */
  function OffField(k: nat): nat {
    16 + 8 * k
  }

  ghost predicate FieldsAt(b: seq<byte>, k: nat, off: nat, size: nat) {
    && OffField(k) + 8 <= |b|
    && Word32(b, OffField(k)) == off && Word32(b, OffField(k) + 4) == size
  }

  /** Part k is described by the header and stored where it says. */
  ghost predicate PartAt(b: seq<byte>, input: Input, k: nat)
    requires k < |input.parts|
  {
    match input.parts[k]
    case None => FieldsAt(b, k, 0, 0)
    case Some(p) =>
      && FieldsAt(b, k, PartOff(input, k), |p|)
      && PartOff(input, k) + |p| <= |b|
      && b[PartOff(input, k)..PartOff(input, k) + |p|] == p
  }

  /** Magic number, version, sizes and command line of the image. */
  ghost predicate HeadAt(b: seq<byte>, input: Input)
    requires |input.parts| == 4
  {
    && |b| == TotalSize(input)
    && HeaderSize(input) <= |b|
    && Word32(b, 0) == MAGIC && Word32(b, 4) == 0
    && Word32(b, 8) == HeaderSize(input) && Word32(b, 12) == TotalSize(input)
    && (input.cmdline.Some? ==> CStrAt(b, HEADER, HeaderSize(input), input.cmdline.value))
  }

  /** b is the image of the input; what lies between the parts is anything. */
  ghost predicate IsImage(b: seq<byte>, input: Input) {
    && |input.parts| == 4 && HeadAt(b, input)
    && forall k :: 0 <= k < 4 ==> PartAt(b, input, k)
  }

  // ---- the layout ----------------------------------------------------------------------------

  /** The parts are page-aligned, in order, behind the header and the command line, disjoint and
      within the image. */
  lemma {:induction false} Layout(input: Input, j: nat, k: nat)
    requires |input.parts| == 4 && j < k < 4
    ensures PartOff(input, j) % PAGE == 0 && PartOff(input, k) % PAGE == 0
    ensures HeaderSize(input) <= PartOff(input, j)
    ensures PartOff(input, j) + PartSize(input.parts[j]) <= PartOff(input, k)
    ensures PartOff(input, k) + PartSize(input.parts[k]) <= TotalSize(input)
    decreases k
  {
    PartsInOrder(input, 0, j);
    PartsInOrder(input, j + 1, k);
    PartsInOrder(input, k, 3);
  }

  lemma {:induction false} PartsInOrder(input: Input, j: nat, k: nat)
    requires j <= k < |input.parts|
    ensures PartOff(input, j) <= PartOff(input, k)
    ensures PartOff(input, j) + PartSize(input.parts[j]) <= PartOff(input, k) + PartSize(input.parts[k])
    decreases k
  {
    if j < k {
      PartsInOrder(input, j, k - 1);
    }
  }

  // ---- create_image --------------------------------------------------------------------------

  /** The offset create_image has reached before part k. */
  function Before(input: Input, k: nat): nat
    requires k <= |input.parts|
  {
    if k == 0 then HeaderSize(input) else PartOff(input, k - 1) + PartSize(input.parts[k - 1])
  }

  function FieldOff(input: Input, k: nat): nat
    requires k < |input.parts|
  {
    if input.parts[k].Some? then PartOff(input, k) else 0
  }

  /** The header has its fields for the first n parts, and zeros in the others. */
  ghost predicate HeaderUpTo(h: seq<byte>, input: Input, n: nat)
    requires n <= |input.parts| == 4
  {
    && HEADER <= |h|
    && Word32(h, 0) == MAGIC && Word32(h, 4) == 0 && Word32(h, 8) == HeaderSize(input)
    && (forall k :: 0 <= k < n ==> FieldsAt(h, k, FieldOff(input, k), PartSize(input.parts[k])))
    && (forall i :: OffField(n) <= i < HEADER ==> h[i] == 0)
  }

  lemma {:induction false} FieldsFrame(a: seq<byte>, b: seq<byte>, k: nat, o: nat, s: nat)
    requires FieldsAt(a, k, o, s) && Same(a, b, OffField(k), OffField(k) + 8)
    ensures FieldsAt(b, k, o, s)
  {
    WordFrame(a, b, OffField(k));
    WordFrame(a, b, OffField(k) + 4);
  }

  /** One "if (path)" block of create_image: aligns the offset and places a file. */
  method Place(hdr: array<byte>, input: Input, k: nat, offset: nat) returns (next: nat)
    requires GoodInput(input) && k < 4 && hdr.Length == HEADER
    requires offset == Before(input, k) && Before(input, k + 1) < 0x1_0000_0000
    requires HeaderUpTo(hdr[..], input, k)
    modifies hdr
    ensures HeaderUpTo(hdr[..], input, k + 1)
    ensures next == Before(input, k + 1)
  {
    ghost var a := hdr[..];
    next := AlignPage(offset);
    if input.parts[k].Some? {
      var s := |input.parts[k].value|;
      PutBe32(hdr, OffField(k), next);
      ghost var m := hdr[..];
      PutBe32(hdr, OffField(k) + 4, s);
      WordFrame(m, hdr[..], OffField(k));
      next := next + s;
    }
    HeaderMore(a, hdr[..], input, k);
  }

  lemma {:induction false} HeaderMore(a: seq<byte>, b: seq<byte>, input: Input, k: nat)
    requires k < |input.parts| == 4 && HeaderUpTo(a, input, k) && |a| == |b|
    requires Same(a, b, 0, OffField(k)) && Same(a, b, OffField(k + 1), HEADER)
    requires if input.parts[k].Some? then FieldsAt(b, k, FieldOff(input, k), PartSize(input.parts[k])) else a == b
    ensures HeaderUpTo(b, input, k + 1)
  {
    WordFrame(a, b, 0);
    WordFrame(a, b, 4);
    WordFrame(a, b, 8);
    forall j | 0 <= j < k ensures FieldsAt(b, j, FieldOff(input, j), PartSize(input.parts[j])) {
      FieldsFrame(a, b, j, FieldOff(input, j), PartSize(input.parts[j]));
    }
  }

  /** The header of the image and the size of the image. */
  method BuildHeader(input: Input) returns (hdr: array<byte>, total: nat)
    requires GoodInput(input) && TotalSize(input) < 0x1_0000_0000
    ensures fresh(hdr) && hdr.Length == HEADER && HeaderUpTo(hdr[..], input, 4)
    ensures total == TotalSize(input) && Word32(hdr[..], 12) == total
  {
    hide Word32, FieldsAt, HeaderUpTo, AlignPage;
    Sizes(input);
    var offset;
    hdr, offset := BeginHeader(input);
    offset := Place(hdr, input, 0, offset);
    offset := Place(hdr, input, 1, offset);
    offset := Place(hdr, input, 2, offset);
    offset := Place(hdr, input, 3, offset);
    ghost var c := hdr[..];
    PutBe32(hdr, 12, offset);
    total := offset;
    HeaderFrame(c, hdr[..], input, 4);
  }

  /** The zeroed header with its magic, version and size. */
  method BeginHeader(input: Input) returns (hdr: array<byte>, offset: nat)
    requires GoodInput(input) && HeaderSize(input) < 0x1_0000_0000
    ensures fresh(hdr) && hdr.Length == HEADER && HeaderUpTo(hdr[..], input, 0)
    ensures offset == HeaderSize(input)
  {
    hide Word32;
    hdr := new byte[HEADER](i => 0);
    PutBe32(hdr, 0, MAGIC);
    ghost var a := hdr[..];
    PutBe32(hdr, 4, 0);
    ghost var b := hdr[..];
    offset := HEADER;
    if input.cmdline.Some? {
      offset := offset + |input.cmdline.value| + 1;
    }
    PutBe32(hdr, 8, offset);
    WordFrame(a, hdr[..], 0);
    WordFrame(b, hdr[..], 0);
    WordFrame(b, hdr[..], 4);
  }

  lemma {:induction false} HeaderFrame(a: seq<byte>, b: seq<byte>, input: Input, n: nat)
    requires n <= |input.parts| == 4 && HeaderUpTo(a, input, n)
    requires HEADER <= |b| && Same(a, b, 0, 12) && Same(a, b, 16, HEADER)
    ensures HeaderUpTo(b, input, n)
  {
    WordFrame(a, b, 0);
    WordFrame(a, b, 4);
    WordFrame(a, b, 8);
    forall j | 0 <= j < n ensures FieldsAt(b, j, FieldOff(input, j), PartSize(input.parts[j])) {
      FieldsFrame(a, b, j, FieldOff(input, j), PartSize(input.parts[j]));
    }
  }

  lemma {:induction false} Sizes(input: Input)
    requires |input.parts| == 4
    ensures HeaderSize(input) <= Before(input, 1) <= Before(input, 2) <= Before(input, 3) <= Before(input, 4)
    ensures Before(input, 4) == TotalSize(input)
  {
    PartsInOrder(input, 0, 1);
    PartsInOrder(input, 1, 2);
    PartsInOrder(input, 2, 3);
  }

  /** The header and the command line of the image. */
  ghost predicate ImageHead(b: seq<byte>, input: Input) {
    && |input.parts| == 4 && HeadAt(b, input)
    && (forall k :: 0 <= k < 4 ==> FieldsAt(b, k, FieldOff(input, k), PartSize(input.parts[k])))
  }

  /** The image without its parts from the n-th on, but with the whole header. */
  ghost predicate ImageUpTo(b: seq<byte>, input: Input, n: nat)
    requires n <= 4
  {
    ImageHead(b, input) && forall k :: 0 <= k < n ==> PartAt(b, input, k)
  }

  lemma {:induction false} HeadFrame(a: seq<byte>, b: seq<byte>, input: Input)
    requires ImageHead(a, input) && |a| == |b| && Same(a, b, 0, HeaderSize(input))
    ensures ImageHead(b, input)
  {
    hide Word32;
    WordFrame(a, b, 0);
    WordFrame(a, b, 4);
    WordFrame(a, b, 8);
    WordFrame(a, b, 12);
    if input.cmdline.Some? {
      CStrFrame(a, b, HEADER, HeaderSize(input), HeaderSize(input), input.cmdline.value);
    }
    forall j | 0 <= j < 4 ensures FieldsAt(b, j, FieldOff(input, j), PartSize(input.parts[j])) {
      FieldsFrame(a, b, j, FieldOff(input, j), PartSize(input.parts[j]));
    }
  }

  /** load_file of part k to where the header says it goes. */
  method LoadPart(buff: array<byte>, input: Input, k: nat)
    requires GoodInput(input) && k < 4
    requires ImageUpTo(buff[..], input, k)
    modifies buff
    ensures ImageUpTo(buff[..], input, k + 1)
  {
    hide Word32, AlignPage;
    ghost var a := buff[..];
    if input.parts[k].Some? {
      var o := Word32(buff[..], OffField(k));
      assert FieldsAt(a, k, FieldOff(input, k), PartSize(input.parts[k]));
      Sizes(input);
      PartsInOrder(input, k, 3);
      MemCpy(buff, o, input.parts[k].value);
    }
    ImageMore(a, buff[..], input, k);
  }

  lemma {:induction false} ImageMore(a: seq<byte>, b: seq<byte>, input: Input, k: nat)
    requires k < 4 && ImageUpTo(a, input, k) && |a| == |b|
    requires match input.parts[k]
             case None => a == b
             case Some(p) =>
               && PartOff(input, k) + |p| <= |b|
               && (forall i :: 0 <= i < |p| ==> b[PartOff(input, k) + i] == p[i])
               && Same(a, b, 0, PartOff(input, k))
    ensures ImageUpTo(b, input, k + 1)
  {
    hide Word32, AlignPage;
    Sizes(input);
    PartsInOrder(input, 0, k);
    HeadFrame(a, b, input);
    forall j | 0 <= j < k + 1 ensures PartAt(b, input, j) {
      if j < k {
        PartFrame(a, b, input, j, k);
      } else if input.parts[k].Some? {
        assert FieldsAt(b, j, FieldOff(input, j), PartSize(input.parts[j]));
      }
    }
  }

  lemma {:induction false} PartFrame(a: seq<byte>, b: seq<byte>, input: Input, j: nat, k: nat)
    requires |input.parts| == 4 && j < k < 4 && |a| == |b| && PartAt(a, input, j)
    requires Same(a, b, 0, if input.parts[k].Some? then PartOff(input, k) else |a|)
    requires FieldsAt(b, j, FieldOff(input, j), PartSize(input.parts[j]))
    ensures PartAt(b, input, j)
  {
    Layout(input, j, k);
    if input.parts[j].Some? {
      var o, p := PartOff(input, j), input.parts[j].value;
      assert forall i :: 0 <= i < |p| ==> a[o..o + |p|][i] == p[i];
      assert b[o..o + |p|] == a[o..o + |p|];
    }
  }

  /** create_image: for every input below 4 GiB the buffer, whose bytes are arbitrary to begin
      with, ends up as the image of the input. */
  method CreateImage(input: Input) returns (buff: array<byte>)
    requires GoodInput(input) && TotalSize(input) < 0x1_0000_0000
    ensures fresh(buff) && IsImage(buff[..], input)
  {
    var hdr, total := BuildHeader(input);
    buff := new byte[total];
    CopyHeader(buff, hdr, input);
    LoadPart(buff, input, 0);
    LoadPart(buff, input, 1);
    LoadPart(buff, input, 2);
    LoadPart(buff, input, 3);
  }

  /** memcpy of the header and strcpy of the command line. */
  method CopyHeader(buff: array<byte>, hdr: array<byte>, input: Input)
    requires GoodInput(input) && buff != hdr && buff.Length == TotalSize(input) < 0x1_0000_0000
    requires hdr.Length == HEADER && HeaderUpTo(hdr[..], input, 4) && Word32(hdr[..], 12) == TotalSize(input)
    modifies buff
    ensures ImageUpTo(buff[..], input, 0)
  {
    hide Word32, AlignPage;
    Sizes(input);
    ghost var h := hdr[..];
    MemCpy(buff, 0, hdr[..]);
    if input.cmdline.Some? {
      StrCpy(buff, HEADER, input.cmdline.value);
      assert HEADER + |input.cmdline.value| + 1 == HeaderSize(input);
    }
    ghost var b := buff[..];
    assert Same(h, b, 0, HEADER);
    WordFrame(h, b, 0);
    WordFrame(h, b, 4);
    WordFrame(h, b, 8);
    WordFrame(h, b, 12);
    forall j | 0 <= j < 4 ensures FieldsAt(b, j, FieldOff(input, j), PartSize(input.parts[j])) {
      FieldsFrame(h, b, j, FieldOff(input, j), PartSize(input.parts[j]));
    }
  }

  // ---- extract_image -------------------------------------------------------------------------

  /** What extract_image saves: one file for each part that is not empty, and the command line. */
  datatype Output = Output(cmdline: Option<seq<byte>>, parts: seq<Option<seq<byte>>>)

  /** A part that is there and not empty. */
  function NonEmpty(part: Option<seq<byte>>): Option<seq<byte>> {
    if part.Some? && part.value == [] then None else part
  }

  /** One "if" block of extract_image. */
  method ExtractPart(b: seq<byte>, k: nat, ghost input: Input) returns (r: Option<seq<byte>>)
    requires IsImage(b, input) && k < 4
    ensures r == NonEmpty(input.parts[k])
  {
    assert PartAt(b, input, k);
    if Word32(b, OffField(k) + 4) == 0 {
      return None;
    }
    var offset := Word32(b, OffField(k));
    var size := Word32(b, OffField(k) + 4);
    r := Some(b[offset..offset + size]);
  }

  /** extract_image: recovers every non-empty part and the command line of what was packed. */
  method ExtractImage(b: seq<byte>, ghost input: Input) returns (r: Output)
    requires IsImage(b, input)
    ensures r.cmdline == input.cmdline
    ensures |r.parts| == 4 && forall k :: 0 <= k < 4 ==> r.parts[k] == NonEmpty(input.parts[k])
  {
    var p0 := ExtractPart(b, 0, input);
    var p1 := ExtractPart(b, 1, input);
    var p2 := ExtractPart(b, 2, input);
    var p3 := ExtractPart(b, 3, input);
    var cmdline := None;
    if Word32(b, 8) > HEADER {
      var size := StrLen(b, HEADER, HeaderSize(input), input.cmdline.value);
      cmdline := Some(b[HEADER..HEADER + size]);
    }
    r := Output(cmdline, [p0, p1, p2, p3]);
  }

  /** Packing and unpacking. */
  method CreateExtract(input: Input) returns (r: Output)
    requires GoodInput(input) && TotalSize(input) < 0x1_0000_0000
    ensures r.cmdline == input.cmdline
    ensures |r.parts| == 4 && forall k :: 0 <= k < 4 ==> r.parts[k] == NonEmpty(input.parts[k])
  {
    var buff := CreateImage(input);
    r := ExtractImage(buff[..], input);
  }

  /** An image determines what was packed into it, up to the difference between a missing and an
      empty file. */
  lemma {:induction false} ImageUnique(b: seq<byte>, x: Input, y: Input, k: nat)
    requires IsImage(b, x) && IsImage(b, y) && k < 4
    ensures x.cmdline == y.cmdline && NonEmpty(x.parts[k]) == NonEmpty(y.parts[k])
  {
    assert PartAt(b, x, k) && PartAt(b, y, k);
    if x.cmdline.Some? && y.cmdline.Some? {
      CStrUnique(b, HEADER, HeaderSize(x), x.cmdline.value, HeaderSize(y), y.cmdline.value);
    }
  }

  // ---- the format in its own terms -----------------------------------------------------------

  /** The next page boundary. */
  function NextPage(n: nat): nat {
    if n % 4096 == 0 then n else n - n % 4096 + 4096
  }

  /** Where the header with the command line ends, where part k starts, and where it ends. */
  function HeadEnd(input: Input): nat {
    match input.cmdline
    case None => 48
    case Some(c) => 48 + |c| + 1
  }

  function PartPos(input: Input, k: nat): nat
    requires k < |input.parts|
    decreases k, 0
  {
    NextPage(if k == 0 then HeadEnd(input) else PartEnd(input, k - 1))
  }

  function PartEnd(input: Input, k: nat): nat
    requires k < |input.parts|
    decreases k, 1
  {
    match input.parts[k]
    case None => PartPos(input, k)
    case Some(p) => PartPos(input, k) + |p|
  }

  /** The big-endian number at o. */
  predicate Says(b: seq<byte>, o: nat, n: nat) {
    o + 4 <= |b| && BigEndian(b[o..o + 4]) == n
  }

  /** Part k: the fields at 16, 24, 32 and 40 give its offset and its size, and it is there. */
  ghost predicate HasPart(b: seq<byte>, input: Input, k: nat)
    requires k < |input.parts|
  {
    match input.parts[k]
    case None => Says(b, 16 + 8 * k, 0) && Says(b, 20 + 8 * k, 0)
    case Some(p) =>
      && Says(b, 16 + 8 * k, PartPos(input, k)) && Says(b, 20 + 8 * k, |p|)
      && PartEnd(input, k) <= |b| && b[PartPos(input, k)..PartEnd(input, k)] == p
  }

  /** Magic number, version 0, header size, total size, and the NUL-terminated command line if there is
      one. */
  ghost predicate HasHead(b: seq<byte>, input: Input)
    requires |input.parts| == 4
  {
    && |b| == PartEnd(input, 3)
    && Says(b, 0, 0x4750544c) && Says(b, 4, 0) && Says(b, 8, HeadEnd(input)) && Says(b, 12, |b|)
    && (input.cmdline.Some? ==>
          0 !in input.cmdline.value && HeadEnd(input) <= |b| && b[48..HeadEnd(input)] == input.cmdline.value + [0])
  }

  /** A GPTL image: header and command line, the fields of opensbi, kernel, initrd and fdt, and each part
      on the first page boundary behind the one before. */
  ghost predicate IsGptlImage(b: seq<byte>, input: Input) {
    && |input.parts| == 4 && HasHead(b, input)
    && HasPart(b, input, 0) && HasPart(b, input, 1) && HasPart(b, input, 2) && HasPart(b, input, 3)
  }

  lemma {:induction false} PositionsAre(input: Input, k: nat)
    requires k < |input.parts|
    ensures HeadEnd(input) == HeaderSize(input)
    ensures PartPos(input, k) == PartOff(input, k) && PartEnd(input, k) == PartOff(input, k) + PartSize(input.parts[k])
    decreases k
  {
    if k > 0 {
      PositionsAre(input, k - 1);
      PageIs(PartEnd(input, k - 1));
    } else {
      PageIs(HeadEnd(input));
    }
    hide NextPage, AlignPage;
  }

  lemma {:induction false} PageIs(n: nat)
    ensures NextPage(n) == AlignPage(n)
  {
  }

  lemma {:induction false} SaysIs(b: seq<byte>, o: nat, n: nat)
    ensures Says(b, o, n) <==> o + 4 <= |b| && Word32(b, o) == n
  {
    if o + 4 <= |b| {
      Word32Is(b, o);
    }
  }

  lemma {:induction false} FieldsAre(b: seq<byte>, k: nat, off: nat, size: nat)
    ensures Says(b, 16 + 8 * k, off) && Says(b, 20 + 8 * k, size) <==> FieldsAt(b, k, off, size)
  {
    hide Says, Word32;
    SaysIs(b, 16 + 8 * k, off);
    SaysIs(b, 20 + 8 * k, size);
  }

  lemma {:induction false} PartIs(b: seq<byte>, input: Input, k: nat)
    requires k < |input.parts|
    ensures HasPart(b, input, k) <==> PartAt(b, input, k)
  {
    PositionsAre(input, k);
    hide Says, FieldsAt, PartPos, PartOff, PartEnd, HeadEnd, HeaderSize;
    match input.parts[k]
    case None => FieldsAre(b, k, 0, 0);
    case Some(p) => FieldsAre(b, k, PartOff(input, k), |p|);
  }

  lemma {:induction false} CmdlineIs(b: seq<byte>, input: Input)
    ensures (input.cmdline.Some? ==> CStrAt(b, HEADER, HeadEnd(input), input.cmdline.value)) <==>
            (input.cmdline.Some? ==>
               0 !in input.cmdline.value && HeadEnd(input) <= |b| && b[48..HeadEnd(input)] == input.cmdline.value + [0])
  {
    if input.cmdline.Some? && HeadEnd(input) <= |b| {
      var c, d := input.cmdline.value, b[48..HeadEnd(input)];
      assert forall i :: 0 <= i < |d| ==> d[i] == b[48 + i];
    }
  }

  lemma {:induction false} HeadIs(b: seq<byte>, input: Input)
    requires |input.parts| == 4
    ensures HasHead(b, input) <==> HeadAt(b, input)
  {
    Sizes(input);
    PositionsAre(input, 3);
    assert HeaderSize(input) <= TotalSize(input) == PartEnd(input, 3);
    hide Says, Word32, PartEnd, TotalSize, CStrAt;
    SaysIs(b, 0, 0x4750544c);
    SaysIs(b, 4, 0);
    SaysIs(b, 8, HeadEnd(input));
    SaysIs(b, 12, |b|);
    CmdlineIs(b, input);
  }

  lemma {:induction false} PartsAre(b: seq<byte>, input: Input)
    requires |input.parts| == 4
    ensures HasPart(b, input, 0) && HasPart(b, input, 1) && HasPart(b, input, 2) && HasPart(b, input, 3) <==>
              forall k :: 0 <= k < 4 ==> PartAt(b, input, k)
  {
    hide PartAt, HasPart;
    PartIs(b, input, 0);
    PartIs(b, input, 1);
    PartIs(b, input, 2);
    PartIs(b, input, 3);
  }

  /** The format that packer, unpacker and loader agree on is this one. */
  lemma {:induction false} ImageIs(b: seq<byte>, input: Input)
    ensures IsImage(b, input) <==> IsGptlImage(b, input)
  {
    hide HasHead, HeadAt, PartAt, HasPart;
    if |input.parts| == 4 {
      HeadIs(b, input);
      PartsAre(b, input);
    }
  }
}
