/**
 * `itertree(path)` of `ocrd_utils.os`: a recursive enumeration of a directory
 * tree that yields every directory after everything below it.
 *
 * The file system is a value: an `Entry` is a non-directory path or a
 * directory path with its entries, in the order `Path.iterdir()` lists them.
 */
module FileTree {
  import opened OsPaths

  datatype Entry = File(path: string) | Dir(path: string, children: seq<Entry>)

  /** The entries `itertree` visits, in the order it yields them. */
  function Walk(e: Entry): (r: seq<Entry>)
    decreases e, 1
    ensures |r| >= 1 && r[|r| - 1] == e
  {
    match e
    case File(_) => [e]
    case Dir(_, cs) => WalkAll(cs) + [e]
  }

  function WalkAll(cs: seq<Entry>): seq<Entry>
    decreases cs, 0
  {
    if cs == [] then [] else Walk(cs[0]) + WalkAll(cs[1..])
  }

  /** `itertree(path)`: the paths of the visited entries. */
  function IterTree(e: Entry): seq<string>
  {
    var w := Walk(e);
    seq(|w|, i requires 0 <= i < |w| => w[i].path)
  }

  /** Number of entries in a tree. */
  function Size(e: Entry): nat
    decreases e, 1
  {
    match e
    case File(_) => 1
    case Dir(_, cs) => SizeAll(cs) + 1
  }

  function SizeAll(cs: seq<Entry>): nat
    decreases cs, 0
  {
    if cs == [] then 0 else Size(cs[0]) + SizeAll(cs[1..])
  }

  /** `x` is `e` or lies somewhere below it. */
  predicate Within(x: Entry, e: Entry)
    decreases e, 1
  {
    x == e || (e.Dir? && WithinAll(x, e.children))
  }

  predicate WithinAll(x: Entry, cs: seq<Entry>)
    decreases cs, 0
  {
    cs != [] && (Within(x, cs[0]) || WithinAll(x, cs[1..]))
  }

  /** `itertree` visits one entry per node of the tree. */
  lemma {:induction false} WalkLength(e: Entry)
    decreases e, 1
    ensures |Walk(e)| == Size(e)
  {
    match e
    case File(_) =>
    case Dir(_, cs) => WalkAllLength(cs);
  }

  lemma {:induction false} WalkAllLength(cs: seq<Entry>)
    decreases cs, 0
    ensures |WalkAll(cs)| == SizeAll(cs)
  {
    if cs != [] {
      WalkLength(cs[0]);
      WalkAllLength(cs[1..]);
    }
  }

  /** `itertree` visits exactly the entries of the tree. */
  lemma {:induction false} WalkMember(e: Entry, x: Entry)
    decreases e, 1
    ensures x in Walk(e) <==> Within(x, e)
  {
    match e
    case File(_) =>
    case Dir(_, cs) => WalkAllMember(cs, x);
  }

  lemma {:induction false} WalkAllMember(cs: seq<Entry>, x: Entry)
    decreases cs, 0
    ensures x in WalkAll(cs) <==> WithinAll(x, cs)
  {
    if cs != [] {
      WalkMember(cs[0], x);
      WalkAllMember(cs[1..], x);
    }
  }

  /** Post-order: every visited entry is immediately preceded by the
      enumeration of everything below it. */
  lemma {:induction false} WalkSegment(e: Entry, i: nat)
    requires i < |Walk(e)|
    decreases e, 1
    ensures var x := Walk(e)[i];
      |Walk(x)| <= i + 1 && Walk(e)[i + 1 - |Walk(x)| .. i + 1] == Walk(x)
  {
    var w := Walk(e);
    if i == |w| - 1 {
      assert w[i + 1 - |w| .. i + 1] == w;
    } else {
      var cs := e.children;
      assert w == WalkAll(cs) + [e];
      assert w[i] == WalkAll(cs)[i];
      WalkAllSegment(cs, i);
      var x := w[i];
      assert w[i + 1 - |Walk(x)| .. i + 1] == WalkAll(cs)[i + 1 - |Walk(x)| .. i + 1];
    }
  }

  lemma {:induction false} WalkAllSegment(cs: seq<Entry>, i: nat)
    requires i < |WalkAll(cs)|
    decreases cs, 0
    ensures var x := WalkAll(cs)[i];
      |Walk(x)| <= i + 1 && WalkAll(cs)[i + 1 - |Walk(x)| .. i + 1] == Walk(x)
  {
    var first := Walk(cs[0]);
    var rest := WalkAll(cs[1..]);
    assert WalkAll(cs) == first + rest;
    if i < |first| {
      var x := first[i];
      assert WalkAll(cs)[i] == x;
      WalkSegment(cs[0], i);
      SliceLeft(first, rest, i + 1 - |Walk(x)|, i + 1);
    } else {
      var j := i - |first|;
      var x := rest[j];
      assert WalkAll(cs)[i] == x;
      WalkAllSegment(cs[1..], j);
      SliceRight(first, rest, i + 1 - |Walk(x)|, i + 1);
    }
  }

  lemma SliceLeft<T>(a: seq<T>, b: seq<T>, lo: nat, hi: nat)
    requires lo <= hi <= |a|
    ensures (a + b)[lo..hi] == a[lo..hi]
  {
  }

  lemma SliceRight<T>(a: seq<T>, b: seq<T>, lo: nat, hi: nat)
    requires |a| <= lo <= hi <= |a| + |b|
    ensures (a + b)[lo..hi] == b[lo - |a|..hi - |a|]
  {
  }

  /** Each directory is yielded only after all of its descendants. */
  lemma DescendantsComeFirst(e: Entry, i: nat, y: Entry)
    requires i < |Walk(e)| && Walk(e)[i].Dir?
    requires WithinAll(y, Walk(e)[i].children)
    ensures y in Walk(e)[..i]
  {
    var x := Walk(e)[i];
    WalkSegment(e, i);
    WalkAllMember(x.children, y);
    var w := Walk(e);
    var start := i + 1 - |Walk(x)|;
    var segment := w[start .. i + 1];
    assert segment == WalkAll(x.children) + [x];
    assert segment[..|segment| - 1] == WalkAll(x.children);
    assert segment[..|segment| - 1] == w[start .. i];
    assert w[start .. i] == w[..i][start..];
  }

  /** The `pathlib` parts of an entry's path. */
  function PartsOf(x: Entry): seq<string>
  {
    Parts(x.path)
  }

  /** `c` is what `iterdir` yields for one name below a directory whose key
      (for `PartsOf`, its parts) is `parent`: the directory's key followed by
      one name. */
  predicate IsChildBy(key: Entry -> seq<string>, parent: seq<string>, c: Entry)
  {
    |key(c)| == |parent| + 1 && parent <= key(c) && IsName(key(c)[|parent|])
  }

  /** Every child names one entry directly below its directory, and no two
      children of a directory have the same key. */
  predicate WellFormedBy(key: Entry -> seq<string>, e: Entry)
    decreases e, 1
  {
    e.File? || ChildrenWellFormedBy(key, key(e), e.children)
  }

  predicate ChildrenWellFormedBy(key: Entry -> seq<string>, parent: seq<string>, cs: seq<Entry>)
    decreases cs, 0
  {
    && (forall i :: 0 <= i < |cs| ==> IsChildBy(key, parent, cs[i]) && WellFormedBy(key, cs[i]))
    && (forall i, j :: 0 <= i < j < |cs| ==> key(cs[i]) != key(cs[j]))
  }

  /** A tree as directory listings produce it: each child's parts are its
      directory's parts and one more name, and siblings have different paths. */
  predicate WellFormed(e: Entry)
  {
    WellFormedBy(PartsOf, e)
  }

  /** `d + "/" + n` is a child of `d` in this sense whenever `d` has a named
      component and `n` is a name. */
  lemma JoinedNameIsChild(d: string, n: string, children: seq<Entry>)
    requires Components(d) != [] && IsName(n)
    ensures IsChildBy(PartsOf, Parts(d), File(d + "/" + n))
    ensures IsChildBy(PartsOf, Parts(d), Dir(d + "/" + n, children))
  {
    ChildIsInDirectory(d, n);
  }

  lemma ChildrenTail(key: Entry -> seq<string>, parent: seq<string>, cs: seq<Entry>)
    requires ChildrenWellFormedBy(key, parent, cs) && cs != []
    ensures IsChildBy(key, parent, cs[0]) && WellFormedBy(key, cs[0])
    ensures ChildrenWellFormedBy(key, parent, cs[1..])
    ensures forall k :: 0 <= k < |cs[1..]| ==> key(cs[1..][k]) != key(cs[0])
  {
    forall k | 0 <= k < |cs[1..]|
      ensures cs[1..][k] == cs[k + 1]
    {
    }
  }

  /** Every entry of a walk lies below the walk's root in the key's prefix
      order, and all but the root itself have longer keys. */
  lemma {:induction false} WalkUnder(key: Entry -> seq<string>, e: Entry, i: nat)
    requires WellFormedBy(key, e) && i < |Walk(e)|
    decreases e, 1
    ensures key(e) <= key(Walk(e)[i])
    ensures i < |Walk(e)| - 1 ==> |key(e)| < |key(Walk(e)[i])|
  {
    if i < |Walk(e)| - 1 {
      var cs := e.children;
      assert Walk(e) == WalkAll(cs) + [e];
      assert Walk(e)[i] == WalkAll(cs)[i];
      WalkAllUnder(key, key(e), cs, i);
    }
  }

  lemma {:induction false} WalkAllUnder(key: Entry -> seq<string>, parent: seq<string>, cs: seq<Entry>, i: nat)
    requires ChildrenWellFormedBy(key, parent, cs) && i < |WalkAll(cs)|
    decreases cs, 0
    ensures exists k :: 0 <= k < |cs| && key(cs[k]) <= key(WalkAll(cs)[i])
    ensures parent <= key(WalkAll(cs)[i]) && |parent| < |key(WalkAll(cs)[i])|
  {
    ChildrenTail(key, parent, cs);
    var first := Walk(cs[0]);
    var rest := WalkAll(cs[1..]);
    assert WalkAll(cs) == first + rest;
    if i < |first| {
      var x := first[i];
      assert WalkAll(cs)[i] == x;
      WalkUnder(key, cs[0], i);
      PrefixTransitive(parent, key(cs[0]), key(x));
    } else {
      var j := i - |first|;
      var x := rest[j];
      assert WalkAll(cs)[i] == x;
      WalkAllUnder(key, parent, cs[1..], j);
      var k :| 0 <= k < |cs[1..]| && key(cs[1..][k]) <= key(x);
      assert cs[1..][k] == cs[k + 1];
    }
  }

  lemma PrefixTransitive(a: seq<string>, b: seq<string>, c: seq<string>)
    requires a <= b && b <= c
    ensures a <= c
  {
    assert c[..|a|] == b[..|a|];
  }

  /** Two different sequences of the same length are not both prefixes of
      one sequence. */
  lemma DifferentPrefixes(a: seq<string>, b: seq<string>, p: seq<string>, q: seq<string>)
    requires |a| == |b| && a != b && a <= p && b <= q
    ensures p != q
  {
    assert p[..|a|] == a && q[..|b|] == b;
  }

  /** In a well-formed tree no two visited entries have the same key. */
  lemma {:induction false} WalkDistinct(key: Entry -> seq<string>, e: Entry, i: nat, j: nat)
    requires WellFormedBy(key, e) && i < j < |Walk(e)|
    decreases e, 1
    ensures key(Walk(e)[i]) != key(Walk(e)[j])
  {
    var cs := e.children;
    assert Walk(e) == WalkAll(cs) + [e];
    if j == |Walk(e)| - 1 {
      WalkUnder(key, e, i);
    } else {
      assert Walk(e)[i] == WalkAll(cs)[i] && Walk(e)[j] == WalkAll(cs)[j];
      WalkAllDistinct(key, key(e), cs, i, j);
    }
  }

  lemma {:induction false} WalkAllDistinct(key: Entry -> seq<string>, parent: seq<string>,
                                           cs: seq<Entry>, i: nat, j: nat)
    requires ChildrenWellFormedBy(key, parent, cs) && i < j < |WalkAll(cs)|
    decreases cs, 0
    ensures key(WalkAll(cs)[i]) != key(WalkAll(cs)[j])
  {
    ChildrenTail(key, parent, cs);
    var first := Walk(cs[0]);
    var rest := WalkAll(cs[1..]);
    assert WalkAll(cs) == first + rest;
    if j < |first| {
      assert WalkAll(cs)[i] == first[i] && WalkAll(cs)[j] == first[j];
      WalkDistinct(key, cs[0], i, j);
    } else if |first| <= i {
      assert WalkAll(cs)[i] == rest[i - |first|] && WalkAll(cs)[j] == rest[j - |first|];
      WalkAllDistinct(key, parent, cs[1..], i - |first|, j - |first|);
    } else {
      assert WalkAll(cs)[i] == first[i] && WalkAll(cs)[j] == rest[j - |first|];
      FirstChildApart(key, parent, cs, i, j - |first|);
    }
  }

  /** An entry below the first child and one below a later child differ. */
  lemma FirstChildApart(key: Entry -> seq<string>, parent: seq<string>, cs: seq<Entry>, i: nat, j: nat)
    requires ChildrenWellFormedBy(key, parent, cs) && cs != []
    requires i < |Walk(cs[0])| && j < |WalkAll(cs[1..])|
    ensures key(Walk(cs[0])[i]) != key(WalkAll(cs[1..])[j])
  {
    ChildrenTail(key, parent, cs);
    var x, y := Walk(cs[0])[i], WalkAll(cs[1..])[j];
    WalkUnder(key, cs[0], i);
    WalkAllUnder(key, parent, cs[1..], j);
    var k :| 0 <= k < |cs[1..]| && key(cs[1..][k]) <= key(y);
    DifferentPrefixes(key(cs[0]), key(cs[1..][k]), key(x), key(y));
  }

  /** In a well-formed tree `itertree` yields as many paths as the tree has
      nodes and no two equal `Path`s, that is, no two paths with the same
      parts (with `WalkMember`: every node's path exactly once). */
  lemma IterTreeDistinct(e: Entry)
    requires WellFormed(e)
    ensures |IterTree(e)| == Size(e)
    ensures forall i, j :: 0 <= i < j < |IterTree(e)| ==> Parts(IterTree(e)[i]) != Parts(IterTree(e)[j])
    ensures forall i, j :: 0 <= i < j < |IterTree(e)| ==> IterTree(e)[i] != IterTree(e)[j]
  {
    WalkLength(e);
    forall i, j | 0 <= i < j < |IterTree(e)|
      ensures Parts(IterTree(e)[i]) != Parts(IterTree(e)[j])
    {
      WalkDistinct(PartsOf, e, i, j);
    }
  }

  /** Every path `itertree` yields is in the directory it starts from. */
  lemma IterTreeInDirectory(e: Entry)
    requires WellFormed(e)
    ensures forall p :: p in IterTree(e) ==> IsFileInDirectory(e.path, p)
  {
    forall p | p in IterTree(e)
      ensures IsFileInDirectory(e.path, p)
    {
      var i :| 0 <= i < |IterTree(e)| && IterTree(e)[i] == p;
      WalkUnder(PartsOf, e, i);
    }
  }

  /** The path of every descendant of a directory is yielded before the
      directory's own path, and nowhere else. */
  lemma IterTreeDescendantsFirst(e: Entry, i: nat, y: Entry)
    requires WellFormed(e) && i < |Walk(e)| && Walk(e)[i].Dir?
    requires WithinAll(y, Walk(e)[i].children)
    ensures y.path in IterTree(e)[..i]
    ensures forall j :: 0 <= j < |IterTree(e)| && IterTree(e)[j] == y.path ==> j < i
  {
    DescendantsComeFirst(e, i, y);
    var k :| 0 <= k < i && Walk(e)[..i][k] == y;
    assert IterTree(e)[k] == y.path;
    assert IterTree(e)[..i][k] == y.path;
    IterTreeDistinct(e);
  }
}
