/** The directory walk: directories are descended into, in listing order,
    and every other entry is dispatched as one file. */
module Walker {
  import opened Wrappers
  import opened Metadata

  datatype Entry = File(info: FileInfo) | Dir(name: string, children: seq<Entry>)

  /** The files dispatched by walking `e`, in dispatch order. */
  function Walk(e: Entry): seq<FileInfo>
    decreases e
  {
    match e
    case File(f) => [f]
    case Dir(_, cs) => WalkAll(cs)
  }

  function WalkAll(cs: seq<Entry>): seq<FileInfo>
    decreases cs
  {
    if cs == [] then [] else Walk(cs[0]) + WalkAll(cs[1..])
  }

  /** The entry reached from `e` by following child indices `p`. */
  function Lookup(e: Entry, p: seq<nat>): Option<Entry>
    decreases p
  {
    if p == [] then Some(e)
    else match e
      case File(_) => None
      case Dir(_, cs) => if p[0] < |cs| then Lookup(cs[p[0]], p[1..]) else None
  }

  /** `p` leads to a non-directory entry. */
  predicate IsFilePath(e: Entry, p: seq<nat>) {
    Lookup(e, p).Some? && Lookup(e, p).value.File?
  }

  /** The dispatch position of the file at path `p`: the files of all
      earlier siblings come first. */
  function Position(e: Entry, p: seq<nat>): nat
    requires IsFilePath(e, p)
    decreases p
  {
    if p == [] then 0
    else
      var cs := e.children;
      |WalkAll(cs[..p[0]])| + Position(cs[p[0]], p[1..])
  }

  lemma {:induction false} WalkAllAppend(a: seq<Entry>, b: seq<Entry>)
    ensures WalkAll(a + b) == WalkAll(a) + WalkAll(b)
    decreases a
  {
    if a != [] {
      assert (a + b)[0] == a[0];
      assert (a + b)[1..] == a[1..] + b;
      WalkAllAppend(a[1..], b);
      calc {
        WalkAll(a + b);
        Walk(a[0]) + WalkAll(a[1..] + b);
        Walk(a[0]) + (WalkAll(a[1..]) + WalkAll(b));
        (Walk(a[0]) + WalkAll(a[1..])) + WalkAll(b);
        WalkAll(a) + WalkAll(b);
      }
    } else {
      assert a + b == b;
    }
  }

  lemma WalkAllSingle(c: Entry)
    ensures WalkAll([c]) == Walk(c)
  {
    assert [c][1..] == [];
  }

  /** The walk of a child list splits around child `j`. */
  lemma WalkAllSplit(cs: seq<Entry>, j: nat)
    requires j < |cs|
    ensures WalkAll(cs) == WalkAll(cs[..j]) + Walk(cs[j]) + WalkAll(cs[j + 1..])
    ensures WalkAll(cs[..j + 1]) == WalkAll(cs[..j]) + Walk(cs[j])
  {
    var pre, mid, post := cs[..j], [cs[j]], cs[j + 1..];
    assert cs[..j + 1] == pre + mid;
    assert cs == cs[..j + 1] + post;
    WalkAllSingle(cs[j]);
    WalkAllAppend(pre, mid);
    WalkAllAppend(cs[..j + 1], post);
  }

  /** The walk dispatches the file found at every file path, at its position. */
  lemma {:induction false} PositionCorrect(e: Entry, p: seq<nat>)
    requires IsFilePath(e, p)
    ensures Position(e, p) < |Walk(e)|
    ensures Walk(e)[Position(e, p)] == Lookup(e, p).value.info
    decreases p
  {
    if p != [] {
      var cs := e.children;
      PositionCorrect(cs[p[0]], p[1..]);
      WalkAllSplit(cs, p[0]);
    }
  }

  /** Later siblings' files come after all of an earlier sibling's files. */
  lemma OffsetMonotone(cs: seq<Entry>, j1: nat, j2: nat)
    requires j1 < j2 <= |cs|
    ensures |WalkAll(cs[..j1])| + |Walk(cs[j1])| <= |WalkAll(cs[..j2])|
  {
    WalkAllSplit(cs, j1);
    assert cs[..j2] == cs[..j1 + 1] + cs[j1 + 1..j2];
    WalkAllAppend(cs[..j1 + 1], cs[j1 + 1..j2]);
  }

  /** Distinct files are dispatched at distinct positions. */
  lemma {:induction false} PositionInjective(e: Entry, p: seq<nat>, q: seq<nat>)
    requires IsFilePath(e, p) && IsFilePath(e, q)
    requires Position(e, p) == Position(e, q)
    ensures p == q
    decreases p
  {
    // a file has no children, so an empty path pairs only with itself
    if p != [] && q != [] {
      var cs := e.children;
      PositionCorrect(cs[p[0]], p[1..]);
      PositionCorrect(cs[q[0]], q[1..]);
      if p[0] < q[0] {
        OffsetMonotone(cs, p[0], q[0]);
      } else if q[0] < p[0] {
        OffsetMonotone(cs, q[0], p[0]);
      } else {
        PositionInjective(cs[p[0]], p[1..], q[1..]);
        assert p == [p[0]] + p[1..];
        assert q == [q[0]] + q[1..];
      }
    }
  }

  /** The walk of a child list is its first child's walk followed by the rest's. */
  lemma WalkAllPrefixCons(cs: seq<Entry>, j: nat)
    requires 0 < |cs| && j < |cs|
    ensures WalkAll(cs[..j + 1]) == Walk(cs[0]) + WalkAll(cs[1..][..j])
  {
    assert cs[..j + 1][0] == cs[0];
    assert cs[..j + 1][1..] == cs[1..][..j];
  }

  /** The child whose files hold dispatch position `i` of a child list. */
  function ChildAt(cs: seq<Entry>, i: nat): (j: nat)
    requires i < |WalkAll(cs)|
    ensures j < |cs|
    ensures |WalkAll(cs[..j])| <= i < |WalkAll(cs[..j])| + |Walk(cs[j])|
    decreases cs
  {
    assert cs[..0] == [];
    if i < |Walk(cs[0])| then 0
    else
      var j' := ChildAt(cs[1..], i - |Walk(cs[0])|);
      WalkAllPrefixCons(cs, j');
      WalkAllSplit(cs, j' + 1);
      assert cs[1..][j'] == cs[j' + 1];
      j' + 1
  }

  /** The path of the file dispatched at position `i`. */
  function PathAt(e: Entry, i: nat): (p: seq<nat>)
    requires i < |Walk(e)|
    ensures IsFilePath(e, p) && Position(e, p) == i
    decreases e
  {
    match e
    case File(_) => []
    case Dir(_, cs) =>
      var j := ChildAt(cs, i);
      var q := PathAt(cs[j], i - |WalkAll(cs[..j])|);
      var p := [j] + q;
      assert p[0] == j && p[1..] == q;
      p
  }

  /** Walking a tree dispatches each non-directory entry exactly once:
      dispatch positions and file paths are in one-to-one correspondence,
      and the file dispatched at a path's position is the file at that path. */
  lemma WalkDispatchesEachFileOnce(e: Entry)
    ensures forall p :: IsFilePath(e, p) ==>
              Position(e, p) < |Walk(e)| && Walk(e)[Position(e, p)] == Lookup(e, p).value.info
    ensures forall p, q :: IsFilePath(e, p) && IsFilePath(e, q) && Position(e, p) == Position(e, q) ==> p == q
    ensures forall i :: 0 <= i < |Walk(e)| ==>
              IsFilePath(e, PathAt(e, i)) && Position(e, PathAt(e, i)) == i
              && Walk(e)[i] == Lookup(e, PathAt(e, i)).value.info
  {
    forall p | IsFilePath(e, p)
      ensures Position(e, p) < |Walk(e)| && Walk(e)[Position(e, p)] == Lookup(e, p).value.info
    {
      PositionCorrect(e, p);
    }
    forall p, q | IsFilePath(e, p) && IsFilePath(e, q) && Position(e, p) == Position(e, q)
      ensures p == q
    {
      PositionInjective(e, p, q);
    }
    forall i | 0 <= i < |Walk(e)|
      ensures Walk(e)[i] == Lookup(e, PathAt(e, i)).value.info
    {
      PositionCorrect(e, PathAt(e, i));
    }
  }
}
