/** Paths as strings: dt_find_node_by_path. */
module DtPath {
  import opened Bytes
  import opened FdtFormat
  import opened DtNode
  import opened DtEdit
  import opened DtCells
  import opened Options

  const SLASH: byte := 47
  /** path_array has room for this many components and a terminator that is never reached. */
  const MAX_COMPONENTS := 13

  /** The index of the first slash, or the length. */
  function FirstSlash(s: seq<byte>): (k: nat)
    ensures k <= |s| && (k < |s| ==> s[k] == SLASH)
    ensures forall i :: 0 <= i < k ==> s[i] != SLASH
  {
    if s == [] then 0 else if s[0] == SLASH then 0 else 1 + FirstSlash(s[1..])
  }

  /** The components of a path. */
  function Split(s: seq<byte>): (r: seq<seq<byte>>)
    ensures |r| > 0
    decreases |s|
  {
    var k := FirstSlash(s);
    if k == |s| then [s] else [s[..k]] + Split(s[k + 1..])
  }

  /** The path of some components. */
  function Join(parts: seq<seq<byte>>): seq<byte>
    requires |parts| > 0
  {
    if |parts| == 1 then parts[0] else parts[0] + [SLASH] + Join(parts[1..])
  }

  lemma {:induction false} FirstSlashIs(s: seq<byte>, k: nat)
    requires k <= |s| && (k < |s| ==> s[k] == SLASH) && forall i :: 0 <= i < k ==> s[i] != SLASH
    ensures FirstSlash(s) == k
  {
    var j := FirstSlash(s);
    assert !(j < k) && !(k < j);
  }

  /** Splitting takes a path apart into slash-free components, and joining them gives it back. */
  lemma {:induction false} JoinSplit(s: seq<byte>)
    ensures Join(Split(s)) == s
    ensures forall c :: c in Split(s) ==> '/' as int !in c
    decreases |s|
  {
    var k := FirstSlash(s);
    if k < |s| {
      JoinSplit(s[k + 1..]);
      assert Split(s)[1..] == Split(s[k + 1..]);
      assert s == s[..k] + [SLASH] + s[k + 1..];
    }
  }

  /** Slash-free components joined to a path are its components again. */
  lemma {:induction false} SplitJoin(parts: seq<seq<byte>>)
    requires |parts| > 0 && forall c :: c in parts ==> SLASH !in c
    ensures Split(Join(parts)) == parts
    decreases |parts|
  {
    var s := Join(parts);
    assert parts[0] in parts;
    if |parts| == 1 {
      FirstSlashIs(s, |s|);
    } else {
      FirstSlashIs(s, |parts[0]|);
      assert s[|parts[0]| + 1..] == Join(parts[1..]);
      SplitJoin(parts[1..]);
      assert s[..|parts[0]|] == parts[0];
    }
  }

  /** strchr on a NUL-terminated string in an array; |m| stands for NULL. */
  method StrChr(m: array<byte>, o: nat, c: byte, ghost end: nat) returns (k: nat)
    requires o <= end < m.Length && m[end] == 0 && c != 0
    requires forall i :: o <= i < end ==> m[i] != 0
    ensures o <= k < end || k == m.Length
    ensures k < end ==> m[k] == c && forall i :: o <= i < k ==> m[i] != c
    ensures k == m.Length ==> forall i :: o <= i < end ==> m[i] != c
  {
    k := o;
    while m[k] != 0 && m[k] != c
      invariant o <= k <= end
      invariant forall i :: o <= i < k ==> m[i] != c
      decreases end - k
    {
      k := k + 1;
    }
    if m[k] == 0 {
      k := m.Length;
    }
  }

  /** The string that starts at each of some offsets. */
  method Components(m: seq<byte>, offsets: seq<nat>, ghost parts: seq<seq<byte>>) returns (r: seq<seq<byte>>)
    requires |parts| == |offsets|
    requires forall j :: 0 <= j < |parts| ==> CStrAt(m, offsets[j], |m|, parts[j])
    ensures r == parts
  {
    r := [];
    while |r| < |offsets|
      invariant |r| <= |parts| && r == parts[..|r|]
    {
      var n := StrLen(m, offsets[|r|], |m|, parts[|r|]);
      r := r + [m[offsets[|r|]..offsets[|r|] + n]];
    }
  }

  lemma {:induction false} SplitStep(path: seq<byte>, o: nat, k: nat)
    requires o <= k <= |path| && (k < |path| ==> path[k] == SLASH)
    requires forall i :: o <= i < k ==> path[i] != SLASH
    ensures Split(path[o..]) == if k < |path| then [path[o..k]] + Split(path[k + 1..]) else [path[o..k]]
  {
    FirstSlashIs(path[o..], k - o);
    assert path[o..][..k - o] == path[o..k];
    assert k == |path| ==> path[o..] == path[o..k];
    assert k < |path| ==> path[o..][k - o + 1..] == path[k + 1..];
  }

  /** The component that starts at o is a C string once there is a NUL behind it. */
  lemma {:induction false} ComponentAt(m: seq<byte>, path: seq<byte>, o: nat, k: nat)
    requires 0 !in path && o <= k <= |path| < |m|
    requires m[k] == 0 && forall i :: o <= i < k ==> m[i] == path[i]
    ensures CStrAt(m, o, |m|, path[o..k])
  {
    assert forall c :: c in path[o..k] ==> c in path;
  }

  /** The components done are cut out of m in front of ns, the rest of the path is still whole. */
  ghost predicate Cut(m: seq<byte>, path: seq<byte>, ns: nat, offsets: seq<nat>, done: seq<seq<byte>>) {
    && |m| == |path| + 1 && |offsets| == |done| + 1
    && offsets[|done|] == ns <= |path|
    && (forall i :: ns <= i < |path| ==> m[i] == path[i]) && m[|path|] == 0
    && Split(path) == done + Split(path[ns..])
    && forall j :: 0 <= j < |done| ==> CStrAt(m, offsets[j], ns, done[j])
  }

  /** Before the first cut. */
  lemma {:induction false} CutNone(m: seq<byte>, path: seq<byte>)
    requires CStrAt(m, 0, |m|, path) && |m| == |path| + 1
    ensures Cut(m, path, 0, [0], [])
  {
    assert path[0..] == path;
  }

  /** Putting a NUL on the next slash cuts out one more component. */
  lemma {:induction false} CutMore(m: seq<byte>, path: seq<byte>, ns: nat, offsets: seq<nat>, done: seq<seq<byte>>,
                                   k: nat)
    requires 0 !in path && Cut(m, path, ns, offsets, done)
    requires ns <= k < |path| && m[k] == SLASH && forall i :: ns <= i < k ==> m[i] != SLASH
    ensures Cut(m[k := 0], path, k + 1, offsets + [k + 1], done + [path[ns..k]])
  {
    var m', done' := m[k := 0], done + [path[ns..k]];
    SplitStep(path, ns, k);
    assert done' + Split(path[k + 1..]) == done + Split(path[ns..]);
    ComponentAt(m', path, ns, k);
    CStrTighten(m', ns, path[ns..k], k + 1);
    forall j | 0 <= j < |done| ensures CStrAt(m', offsets[j], k + 1, done[j]) {
      CStrFrame(m, m', offsets[j], ns, k + 1, done[j]);
    }
  }

  /** Without a further slash the components done and the rest are all. */
  lemma {:induction false} CutAll(m: seq<byte>, path: seq<byte>, ns: nat, offsets: seq<nat>, done: seq<seq<byte>>)
    requires 0 !in path && Cut(m, path, ns, offsets, done)
    requires forall i :: ns <= i < |path| ==> m[i] != SLASH
    ensures |offsets| == |Split(path)|
    ensures forall j :: 0 <= j < |offsets| ==> CStrAt(m, offsets[j], |m|, Split(path)[j])
  {
    SplitStep(path, ns, |path|);
    ComponentAt(m, path, ns, |path|);
    forall j | 0 <= j < |done| ensures CStrAt(m, offsets[j], |m|, done[j]) {
      CStrFrame(m, m, offsets[j], ns, |m|, done[j]);
    }
  }

  /** The loop of dt_find_node_by_path: puts a NUL on each slash and notes where the components
      start; 14 starts mean that the path was too long. */
  method SplitInPlace(dup: array<byte>, ghost path: seq<byte>) returns (offsets: seq<nat>)
    requires 0 !in path && |path| + 1 == dup.Length && CStrAt(dup[..], 0, dup.Length, path)
    modifies dup
    ensures |offsets| <= MAX_COMPONENTS ==>
              && |offsets| == |Split(path)|
              && forall j :: 0 <= j < |offsets| ==> CStrAt(dup[..], offsets[j], dup.Length, Split(path)[j])
    ensures |offsets| > MAX_COMPONENTS ==> |Split(path)| > MAX_COMPONENTS
  {
    hide CStrAt, Split;
    var nextSlash := 0;
    offsets := [0];
    ghost var done: seq<seq<byte>> := [];
    CutNone(dup[..], path);
    while |offsets| < MAX_COMPONENTS + 1
      invariant |offsets| <= MAX_COMPONENTS + 1
      invariant Cut(dup[..], path, nextSlash, offsets, done)
    {
      forall i | nextSlash <= i < |path| ensures dup[i] != 0 {
        assert dup[..][i] == path[i] && path[i] in path;
      }
      var k := StrChr(dup, nextSlash, SLASH, |path|);
      if k == dup.Length {
        CutAll(dup[..], path, nextSlash, offsets, done);
        return;
      }
      CutMore(dup[..], path, nextSlash, offsets, done, k);
      done := done + [path[nextSlash..k]];
      dup[k] := 0;
      nextSlash := k + 1;
      offsets := offsets + [nextSlash];
    }
  }

  /** The components dt_find_node_by_path hands to dt_find_node, or none for too long a path. */
  method PathArray(path: seq<byte>) returns (parts: Option<seq<seq<byte>>>)
    requires 0 !in path
    ensures parts == if |Split(path)| <= MAX_COMPONENTS then Some(Split(path)) else None
  {
    var dup := new byte[|path| + 1];
    StrCpy(dup, 0, path);
    var offsets := SplitInPlace(dup, path);
    if |offsets| > MAX_COMPONENTS {
      return None;
    }
    var r := Components(dup[..], offsets, Split(path));
    parts := Some(r);
  }

  /** dt_find_node_by_path: a path of at most 13 components is looked up component by component;
      a longer one gives NULL and changes nothing. */
  method FindNodeByPath(parent: Node, path: seq<byte>, cells: Cells, create: bool, ghost t: Tree)
    returns (r: Node?, cells': Cells)
    requires parent.Is(t) && 0 !in path
    requires |Split(path)| <= 13 ==> PathReadable(t, Split(path), cells)
    modifies if create then parent.Repr else {}
    ensures parent.Is(AfterPath(t, path, create)) && fresh(parent.Repr - old(parent.Repr))
    ensures |Split(path)| > 13 ==> r == null && cells' == cells
    ensures |Split(path)| <= 13 ==>
              r == Lookup(parent, Split(path), AfterPath(t, path, create)) && cells' == PathCells(t, Split(path), cells)
    ensures forall q :: old(Lookup(parent, q, t)) != null ==>
                          Lookup(parent, q, AfterPath(t, path, create)) == old(Lookup(parent, q, t))
  {
    var parts := PathArray(path);
    forall q ensures Lookup(parent, q, t) == old(Lookup(parent, q, t)) {}
    match parts
    case None =>
      r, cells' := null, cells;
      assert AfterPath(t, path, create) == t;
    case Some(p) =>
      r, cells' := FindNode(parent, p, cells, create, t);
      assert AfterPath(t, path, create) == if create then Created(t, p) else t;
  }

  /** A path of at most 13 components that was created is found again, and is the same node. */
  method CreateThenFindByPath(parent: Node, path: seq<byte>, cells: Cells, ghost t: Tree)
    returns (made: Node?, found: Node?, cells1: Cells, cells2: Cells)
    requires parent.Is(t) && 0 !in path && |Split(path)| <= 13 && PathReadable(t, Split(path), cells)
    modifies parent.Repr
    ensures made == found != null && cells1 == cells2
    ensures parent.Is(Created(t, Split(path)))
  {
    made, cells1 := FindNodeByPath(parent, path, cells, true, t);
    ghost var c := Created(t, Split(path));
    CreatedCells(t, Split(path), cells);
    found, cells2 := FindNodeByPath(parent, path, cells, false, c);
    CreatedFound(t, Split(path));
    LookupFinds(parent, Split(path), c);
  }

  /** The tree after dt_find_node_by_path. */
  function AfterPath(t: Tree, path: seq<byte>, create: bool): Tree {
    if create && |Split(path)| <= 13 then Created(t, Split(path)) else t
  }
}
