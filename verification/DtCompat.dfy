/** dt_check_compat_match, with strnlen and strncmp as src/string.c has them: what the scan of a
    "compatible" property finds, and what it should find. */
module DtCompat {
  import opened Bytes
  import opened DtNode
  import opened DtProps

  const COMPATIBLE: seq<byte> := Ascii("compatible")

  /** Where the first NUL of d is; |d| if there is none.  This is min(strlen, |d|). */
  function FirstNul(d: seq<byte>): (n: nat)
    ensures n <= |d| && (n < |d| ==> d[n] == 0)
    ensures forall i :: 0 <= i < n ==> d[i] != 0
  {
    if d == [] then 0 else if d[0] == 0 then 0 else 1 + FirstNul(d[1..])
  }

  lemma {:induction false} FirstNulIs(d: seq<byte>, n: nat)
    requires n <= |d| && (n < |d| ==> d[n] == 0)
    requires forall i :: 0 <= i < n ==> d[i] != 0
    ensures FirstNul(d) == n
  {
    var k := FirstNul(d);
    assert !(k < n) && !(n < k);
  }

  /** Where strnlen gives up: its counter goes up while the bound goes down. */
  function Half(count: nat): nat {
    (count + 1) / 2
  }

  function NLen(d: seq<byte>): nat {
    if FirstNul(d) <= Half(|d|) then FirstNul(d) else Half(|d|)
  }

  /** strnlen of the count bytes at o: their length if that is at most half the bound, or else half
      the bound. */
  method StrNLen(m: seq<byte>, o: nat, count: nat) returns (n: nat)
    requires o + count < |m|
    ensures n == NLen(m[o..o + count])
    ensures var l, half := FirstNul(m[o..o + count]), (count + 1) / 2;
            n == if l <= half then l else half
  {
    ghost var d := m[o..o + count];
    n := 0;
    var left := count;
    while m[o + n] != 0 && n < left
      invariant n + left == count && n <= left + 1
      invariant forall i :: 0 <= i < n ==> d[i] != 0
      decreases left
    {
      assert d[n] == m[o + n];
      n := n + 1;
      left := left - 1;
    }
    if n < count && m[o + n] == 0 {
      FirstNulIs(d, n);
    }
  }

  /** The first |d| characters of the string s are the string that d holds. */
  predicate Agree(s: seq<byte>, d: seq<byte>) {
    (if |s| < |d| then s else s[..|d|]) == d[..FirstNul(d)]
  }

  /** strncmp of the string s and the count bytes at o. */
  method StrNCmp(s: seq<byte>, m: seq<byte>, o: nat, count: nat) returns (r: int)
    requires 0 !in s && o + count <= |m|
    ensures r == 0 <==> Agree(s, m[o..o + count])
  {
    ghost var d := m[o..o + count];
    var a := s + [0];
    for i := 0 to count
      invariant i <= |s| && forall j :: 0 <= j < i ==> s[j] == d[j]
    {
      assert d[i] == m[o + i];
      if a[i] != m[o + i] {
        return (a[i] as int) - (m[o + i] as int);
      }
      if a[i] == 0 {
        FirstNulIs(d, i);
        return 0;
      }
    }
    FirstNulIs(d, count);
    return 0;
  }

  /** What the scan finds in the bytes d. */
  predicate Scan(s: seq<byte>, d: seq<byte>) {
    d != [] && (Agree(s, d) || (NLen(d) + 1 < |d| && Scan(s, d[NLen(d) + 1..])))
  }

  /** The loop of dt_check_compat_match over a property value; the byte behind the value, which
      strnlen may look at, does not matter. */
  method ScanValue(compat: seq<byte>, d: seq<byte>, behind: byte) returns (r: bool)
    requires 0 !in compat
    ensures r <==> Scan(compat, d)
  {
    hide Agree, NLen;
    var m := d + [behind];
    var str, bytes := 0, |d|;
    assert d[0..] == d;
    while bytes > 0
      invariant str <= |d| && bytes == |d| - str && (Scan(compat, d) <==> Scan(compat, d[str..]))
      decreases bytes
    {
      assert m[str..str + bytes] == d[str..];
      var c := StrNCmp(compat, m, str, bytes);
      if c == 0 {
        return true;
      }
      var n := StrNLen(m, str, bytes);
      if bytes <= n + 1 {
        return false;
      }
      assert d[str..][n + 1..] == d[str + n + 1..];
      str := str + n + 1;
      bytes := bytes - (n + 1);
    }
    return false;
  }

  /** dt_check_compat_match, for any property value: only the first property of the name counts. */
  method CheckCompatMatch(node: Node, compat: seq<byte>, behind: byte) returns (r: bool)
    requires 0 !in compat
    ensures r <==> match GetProp(node.properties, Ascii("compatible"))
                   case None => false
                   case Some(d) => Scan(compat, d)
  {
    hide Scan;
    var p := Search(node, COMPATIBLE);
    if p == |node.properties| {
      return false;
    }
    r := ScanValue(compat, node.properties[p].data, behind);
  }

  // ---- string lists ------------------------------------------------------------------------

  ghost predicate NoNuls(es: seq<seq<byte>>) {
    forall i :: 0 <= i < |es| ==> 0 !in es[i]
  }

  /** A string list: the entries one after another, each with its NUL. */
  function Packed(es: seq<seq<byte>>): (d: seq<byte>)
    ensures |d| >= |es|
  {
    if es == [] then [] else es[0] + [0] + Packed(es[1..])
  }

  lemma {:induction false} PackedCons(e: seq<byte>, es: seq<seq<byte>>)
    ensures Packed([e] + es) == e + [0] + Packed(es)
  {
    assert ([e] + es)[1..] == es;
  }

  /** What the scan is left with after a step over the first entry: the other entries, or, if the
      step was too short, the end of the first entry as well. */
  function Shift(es: seq<seq<byte>>): (r: seq<seq<byte>>)
    requires es != []
    ensures |Packed(r)| < |Packed(es)|
    ensures if |es[0]| <= Half(|Packed(es)|) then r == es[1..] else r != [] && r[1..] == es[1..]
  {
    var half := Half(|Packed(es)|);
    if |es[0]| <= half then es[1..]
    else
      var r := [es[0][half + 1..]] + es[1..];
      assert r[1..] == es[1..];
      r
  }

  /** The strings that the scan compares with if none of them is equal. */
  function Landings(es: seq<seq<byte>>): seq<seq<byte>>
    decreases |Packed(es)|
  {
    if es == [] then [] else [es[0]] + Landings(Shift(es))
  }

  lemma {:induction false} PackedFirst(es: seq<seq<byte>>)
    requires es != [] && NoNuls(es)
    ensures FirstNul(Packed(es)) == |es[0]| < |Packed(es)|
    ensures Packed(es)[..|es[0]|] == es[0]
    ensures Packed(es)[|es[0]| + 1..] == Packed(es[1..])
  {
    FirstNulIs(Packed(es), |es[0]|);
  }

  lemma {:induction false} DropInFirst(e: seq<byte>, rest: seq<byte>, n: nat)
    requires n <= |e|
    ensures (e + [0] + rest)[n..] == e[n..] + [0] + rest
  {
  }

  /** A step of the scan, in terms of the list. */
  lemma {:induction false} StepPacked(es: seq<seq<byte>>)
    requires NoNuls(es) && es != []
    ensures NoNuls(Shift(es))
    ensures NLen(Packed(es)) < |Packed(es)| && Packed(es)[NLen(Packed(es)) + 1..] == Packed(Shift(es))
  {
    hide FirstNul, Packed, Half;
    var half := Half(|Packed(es)|);
    PackedFirst(es);
    if |es[0]| > half {
      var tail := es[0][half + 1..];
      assert forall b :: b in tail ==> b in es[0];
      assert es == [es[0]] + es[1..];
      PackedCons(es[0], es[1..]);
      PackedCons(tail, es[1..]);
      DropInFirst(es[0], Packed(es[1..]), half + 1);
    }
  }

  lemma {:induction false} ScanStep(s: seq<byte>, es: seq<seq<byte>>)
    requires 0 !in s && NoNuls(es) && es != []
    ensures Scan(s, Packed(es)) <==> s == es[0] || Scan(s, Packed(Shift(es)))
  {
    hide NLen, Shift;
    var d := Packed(es);
    PackedFirst(es);
    StepPacked(es);
    assert Agree(s, d) <==> s == es[0];
  }

  /** The scan of a string list finds exactly its landings. */
  lemma {:induction false} ScanIsLandings(s: seq<byte>, es: seq<seq<byte>>)
    requires 0 !in s && NoNuls(es)
    ensures Scan(s, Packed(es)) <==> s in Landings(es)
    decreases |Packed(es)|
  {
    if es != [] {
      hide Shift;
      StepPacked(es);
      ScanStep(s, es);
      ScanIsLandings(s, Shift(es));
    }
  }

  /** The guard: every entry is at most half as long as what is left of the list where it starts. */
  predicate Fits(es: seq<seq<byte>>) {
    es == [] || (|es[0]| <= Half(|Packed(es)|) && Fits(es[1..]))
  }

  predicate IsSuffix(a: seq<byte>, b: seq<byte>) {
    |a| <= |b| && a == b[|b| - |a|..]
  }

  ghost predicate SuffixFree(es: seq<seq<byte>>) {
    forall a, b :: a in es && b in es && IsSuffix(a, b) ==> a == b
  }

  /** Every entry is a landing. */
  lemma {:induction false} EntriesLand(es: seq<seq<byte>>, e: seq<byte>)
    requires e in es
    ensures e in Landings(es)
    decreases |Packed(es)|
  {
    if e != es[0] {
      assert e in es[1..] && e in Shift(es);
      EntriesLand(Shift(es), e);
    }
  }

  lemma {:induction false} SuffixOfSuffix(a: seq<byte>, b: seq<byte>, n: nat)
    requires n <= |b| && IsSuffix(a, b[n..])
    ensures IsSuffix(a, b)
  {
    assert b[n..][|b[n..]| - |a|..] == b[|b| - |a|..];
  }

  /** Every landing is a suffix of an entry. */
  lemma {:induction false} LandingsAreSuffixes(es: seq<seq<byte>>, l: seq<byte>) returns (e: seq<byte>)
    requires l in Landings(es)
    ensures e in es && IsSuffix(l, e)
    decreases |Packed(es)|
  {
    hide Packed, Half;
    if l == es[0] {
      return es[0];
    }
    e := LandingsAreSuffixes(Shift(es), l);
    if e !in es[1..] {
      assert e == Shift(es)[0];
      SuffixOfSuffix(l, es[0], Half(|Packed(es)|) + 1);
      e := es[0];
    }
  }

  /** The landings are the entries, and nothing else, exactly when the entries fit. */
  lemma {:induction false} LandingsFit(es: seq<seq<byte>>)
    ensures Fits(es) ==> Landings(es) == es
    ensures !Fits(es) ==> |Landings(es)| > |es|
    decreases |Packed(es)|
  {
    if es != [] {
      LandingsFit(Shift(es));
      assert es == [es[0]] + es[1..];
    }
  }

  /** If an entry does not fit, one of its proper suffixes is a landing. */
  lemma {:induction false} UnfitLands(es: seq<seq<byte>>) returns (l: seq<byte>, e: seq<byte>)
    requires !Fits(es)
    ensures l in Landings(es) && e in es && IsSuffix(l, e) && l != e
    decreases |es|
  {
    var half := Half(|Packed(es)|);
    if |es[0]| <= half {
      l, e := UnfitLands(es[1..]);
    } else {
      e := es[0];
      l := e[half + 1..];
      EntriesLand(Shift(es), l);
    }
  }

  /** Complete for every string list: an entry is always found. */
  lemma {:induction false} MatchComplete(es: seq<seq<byte>>, s: seq<byte>)
    requires NoNuls(es) && s in es
    ensures Scan(s, Packed(es))
  {
    EntriesLand(es, s);
    ScanIsLandings(s, es);
  }

  /** What is found is at least the end of an entry. */
  lemma {:induction false} MatchSuffix(es: seq<seq<byte>>, s: seq<byte>)
    requires NoNuls(es) && 0 !in s && Scan(s, Packed(es))
    ensures exists e :: e in es && IsSuffix(s, e)
  {
    ScanIsLandings(s, es);
    var e := LandingsAreSuffixes(es, s);
  }

  /** The scan finds the entries of a list and nothing else. */
  ghost predicate Exact(es: seq<seq<byte>>) {
    forall s :: 0 !in s ==> (Scan(s, Packed(es)) <==> s in es)
  }

  /** The match is exact exactly when the scan lands on entries only.  That is so when the entries
      fit; in a list in which no entry ends in another one, only then. */
  lemma {:induction false} MatchExact(es: seq<seq<byte>>)
    requires NoNuls(es)
    ensures Exact(es) <==> forall l :: l in Landings(es) ==> l in es
    ensures Fits(es) ==> Exact(es)
    ensures SuffixFree(es) ==> (Exact(es) <==> Fits(es))
  {
    LandingsFit(es);
    forall s | 0 !in s ensures Scan(s, Packed(es)) <==> s in Landings(es) {
      ScanIsLandings(s, es);
    }
    forall l | l in Landings(es) ensures 0 !in l {
      var e := LandingsAreSuffixes(es, l);
      assert forall b :: b in l ==> b in e;
    }
    forall e | e in es ensures e in Landings(es) {
      EntriesLand(es, e);
    }
    if !Fits(es) && SuffixFree(es) {
      var l, e := UnfitLands(es);
      assert forall b :: b in l ==> b in e;
      assert l !in es;
    }
  }

  /** A list whose last entry has more than two characters never fits. */
  lemma {:induction false} LastEntryFits(es: seq<seq<byte>>)
    requires es != [] && Fits(es)
    ensures |es[|es| - 1]| <= 2
    decreases |es|
  {
    if |es| > 1 {
      LastEntryFits(es[1..]);
    } else {
      assert Packed(es) == es[0] + [0];
    }
  }

  /** A list of one entry of more than two characters is also taken for one that holds the last
      characters of the entry. */
  lemma {:induction false} MatchUnsound(e: seq<byte>)
    requires 0 !in e && |e| > 2
    ensures Scan(e[(|e| + 2) / 2 + 1..], Packed([e]))
  {
    var es, l := [e], e[(|e| + 2) / 2 + 1..];
    assert Packed(es) == e + [0];
    assert forall b :: b in l ==> b in e;
    assert Shift(es) == [l];
    EntriesLand([l], l);
    ScanIsLandings(l, es);
  }

  /** "u540" matches a node that is compatible with "sifive,fu540" only. */
  lemma {:induction false} MatchUnsoundExample()
    ensures Scan(Ascii("u540"), Packed([Ascii("sifive,fu540")]))
  {
    hide Scan;
    var e := Ascii("sifive,fu540");
    MatchUnsound(e);
    assert e[8..] == Ascii("u540");
  }
}
