/** Bytes in memory, the big-endian words of a flattened device tree and of a GPTL header,
    and C strings inside a byte string. */
module Bytes {

  type byte = b: int | 0 <= b < 256

  type uint32 = n: nat | n < 0x1_0000_0000

  /** The 32-bit big-endian word at offset o: a load followed by be32_to_cpu. */
  function Word32(b: seq<byte>, o: nat): (w: nat)
    requires o + 4 <= |b|
    ensures w < 0x1_0000_0000
  {
    (b[o] as int) * 0x100_0000 + (b[o+1] as int) * 0x1_0000 + (b[o+2] as int) * 0x100 + (b[o+3] as int)
  }

  /** The 64-bit big-endian word at offset o. */
  function Word64(b: seq<byte>, o: nat): (w: nat)
    requires o + 8 <= |b|
    ensures w < 0x1_0000_0000_0000_0000
  {
    Word32(b, o) * 0x1_0000_0000 + Word32(b, o + 4)
  }

  /** The four bytes that store w big-endian. */
  function Be32(w: nat): (r: seq<byte>)
    requires w < 0x1_0000_0000
    ensures |r| == 4 && Word32(r, 0) == w
  {
    [w / 0x100_0000, w / 0x1_0000 % 0x100, w / 0x100 % 0x100, w % 0x100]
  }

  /** The eight bytes that store w big-endian. */
  function Be64(w: nat): (r: seq<byte>)
    requires w < 0x1_0000_0000_0000_0000
    ensures |r| == 8 && Word64(r, 0) == w
  {
    var r := Be32(w / 0x1_0000_0000) + Be32(w % 0x1_0000_0000);
    assert r[..4] == Be32(w / 0x1_0000_0000) && r[4..] == Be32(w % 0x1_0000_0000);
    r
  }

  /** ALIGN_UP(n, 4): the next multiple of 4. */
  function Align4(n: nat): (r: nat)
    ensures n <= r < n + 4 && r % 4 == 0
  {
    (n + 3) / 4 * 4
  }

  /** a and b hold the same bytes on [lo, hi). */
  ghost predicate Same(a: seq<byte>, b: seq<byte>, lo: nat, hi: nat) {
    hi <= |a| && hi <= |b| && forall i :: lo <= i < hi ==> a[i] == b[i]
  }

  /** A NUL-terminated copy of s lies at offset o of b and ends before lim. */
  ghost predicate CStrAt(b: seq<byte>, o: nat, lim: nat, s: seq<byte>) {
    && 0 !in s
    && o + |s| < lim <= |b|
    && (forall i :: 0 <= i < |s| ==> b[o + i] == s[i])
    && b[o + |s|] == 0
  }

  lemma {:induction false} CStrNonZero(b: seq<byte>, o: nat, lim: nat, s: seq<byte>, i: nat)
    requires CStrAt(b, o, lim, s) && i < |s|
    ensures b[o + i] == s[i] != 0
  {
    assert s[i] in s;
  }

  lemma {:induction false} CStrTighten(b: seq<byte>, o: nat, s: seq<byte>, lim: nat)
    requires CStrAt(b, o, |b|, s) && o + |s| < lim <= |b|
    ensures CStrAt(b, o, lim, s)
  {
  }

  lemma {:induction false} CStrFrame(a: seq<byte>, b: seq<byte>, o: nat, lim: nat, lim': nat, s: seq<byte>)
    requires CStrAt(a, o, lim, s)
    requires lim <= lim' <= |b| && Same(a, b, o, lim)
    ensures CStrAt(b, o, lim', s)
  {
    forall i | 0 <= i < |s| ensures b[o + i] == s[i] {
      assert a[o + i] == s[i];
    }
  }

  lemma {:induction false} WordFrame(a: seq<byte>, b: seq<byte>, o: nat)
    requires o + 4 <= |a| && Same(a, b, o, o + 4)
    ensures Word32(a, o) == Word32(b, o)
  {
  }

  /** At most one string is stored at an offset. */
  lemma {:induction false} CStrUnique(b: seq<byte>, o: nat, l1: nat, s1: seq<byte>, l2: nat, s2: seq<byte>)
    requires CStrAt(b, o, l1, s1) && CStrAt(b, o, l2, s2)
    ensures s1 == s2
  {
    if |s1| < |s2| {
      CStrNonZero(b, o, l2, s2, |s1|);
    } else if |s2| < |s1| {
      CStrNonZero(b, o, l1, s1, |s2|);
    }
    assert forall i :: 0 <= i < |s1| ==> s1[i] == b[o + i] == s2[i];
  }

  /** The bytes of an ASCII literal. */
  function Ascii(s: string): (r: seq<byte>)
    requires forall i :: 0 <= i < |s| ==> s[i] < 128 as char
    ensures |r| == |s|
    ensures forall i :: 0 <= i < |s| ==> r[i] == s[i] as int
  {
    seq(|s|, (i: nat) requires i < |s| => (s[i] as byte))
  }

  // ---- stores and copies -------------------------------------------------------------------

  method PutBe32(dest: array<byte>, o: nat, w: nat)
    requires o + 4 <= dest.Length && w < 0x1_0000_0000
    modifies dest
    ensures Word32(dest[..], o) == w
    ensures forall i :: 0 <= i < dest.Length && !(o <= i < o + 4) ==> dest[i] == old(dest[i])
  {
    var r := Be32(w);
    dest[o], dest[o+1], dest[o+2], dest[o+3] := r[0], r[1], r[2], r[3];
  }

  method PutBe64(dest: array<byte>, o: nat, w: nat)
    requires o + 8 <= dest.Length && w < 0x1_0000_0000_0000_0000
    modifies dest
    ensures Word64(dest[..], o) == w
    ensures forall i :: 0 <= i < dest.Length && !(o <= i < o + 8) ==> dest[i] == old(dest[i])
  {
    PutBe32(dest, o, w / 0x1_0000_0000);
    label Half:
    PutBe32(dest, o + 4, w % 0x1_0000_0000);
    assert Word32(dest[..], o) == old@Half(Word32(dest[..], o));
  }

  /** memcpy of all of src to dest + o. */
  method MemCpy(dest: array<byte>, o: nat, src: seq<byte>)
    requires o + |src| <= dest.Length
    modifies dest
    ensures forall i :: 0 <= i < |src| ==> dest[o + i] == src[i]
    ensures forall i :: 0 <= i < dest.Length && !(o <= i < o + |src|) ==> dest[i] == old(dest[i])
  {
    var k := 0;
    while k < |src|
      invariant k <= |src|
      invariant forall i :: 0 <= i < k ==> dest[o + i] == src[i]
      invariant forall i :: 0 <= i < dest.Length && !(o <= i < o + k) ==> dest[i] == old(dest[i])
    {
      dest[o + k] := src[k];
      k := k + 1;
    }
  }

  /** strcpy of the string s to dest + o. */
  method StrCpy(dest: array<byte>, o: nat, s: seq<byte>)
    requires 0 !in s && o + |s| < dest.Length
    modifies dest
    ensures CStrAt(dest[..], o, o + |s| + 1, s)
    ensures forall i :: 0 <= i < dest.Length && !(o <= i <= o + |s|) ==> dest[i] == old(dest[i])
  {
    var k := 0;
    while k < |s|
      invariant k <= |s|
      invariant forall i :: 0 <= i < k ==> dest[o + i] == s[i]
      invariant forall i :: 0 <= i < dest.Length && !(o <= i < o + k) ==> dest[i] == old(dest[i])
    {
      dest[o + k] := s[k];
      k := k + 1;
    }
    dest[o + k] := 0;
  }

  /** strlen of the string at offset o of m. */
  method StrLen(m: seq<byte>, o: nat, ghost lim: nat, ghost s: seq<byte>) returns (n: nat)
    requires CStrAt(m, o, lim, s)
    ensures n == |s| && m[o..o + n] == s
  {
    n := 0;
    while m[o + n] != 0
      invariant n <= |s|
      decreases |s| - n
    {
      n := n + 1;
    }
    if n < |s| {
      CStrNonZero(m, o, lim, s, n);
    }
    assert forall i :: 0 <= i < |s| ==> m[o + i] == s[i];
  }
}
