/**
 * Path helpers of `ocrd_utils.os`: `abspath`, which accepts `file://` URLs,
 * and `is_file_in_directory`, which compares `pathlib` path components.
 *
 * The platform's `os.path.abspath` (working-directory lookup and
 * normalisation) is not modelled: it is passed in as the function `resolve`.
 * `pathlib.PurePosixPath(...).parts` is modelled after its POSIX parsing rules.
 */
module OsPaths {
  import opened TextOps

  const FileScheme := "file://"

  /** The URL with one leading `file://` removed, if it has one. */
  function StripFileScheme(url: string): (r: string)
    ensures FileScheme <= url ==> url == FileScheme + r
    ensures !(FileScheme <= url) ==> r == url
  {
    if FileScheme <= url then url[|FileScheme|..] else url
  }

  /** `abspath(url)`: the platform resolver applied to the URL without its
      `file://` scheme. */
  function AbsPath(url: string, resolve: string -> string): (r: string)
    ensures exists p :: (url == FileScheme + p || (url == p && !(FileScheme <= p))) && r == resolve(p)
  {
    var p := StripFileScheme(url);
    assert url == FileScheme + p || (url == p && !(FileScheme <= p));
    resolve(p)
  }

  /** Exactly one `file://` is removed: a path that itself begins with
      `file://` reaches the resolver with that second prefix intact. */
  lemma AbsPathOfFileUrl(p: string, resolve: string -> string)
    ensures AbsPath(FileScheme + p, resolve) == resolve(p)
  {
    assert FileScheme <= FileScheme + p;
    assert (FileScheme + p)[|FileScheme|..] == p;
  }

  /** Anything that is not a `file://` URL reaches the resolver unchanged. */
  lemma AbsPathOfPlainPath(p: string, resolve: string -> string)
    requires !(FileScheme <= p)
    ensures AbsPath(p, resolve) == resolve(p)
  {
  }

  /** The root of a POSIX path: exactly two leading slashes are kept as the
      root `//`, one or three and more become `/`, none gives no root. */
  function Root(s: string): (r: string)
    ensures r == "" || r == "/" || r == "//"
    ensures r <= s
  {
    if "//" <= s && !("///" <= s) then "//"
    else if "/" <= s then "/"
    else ""
  }

  /** The components after the root: empty pieces and `.` are dropped. */
  function Components(s: string): (r: seq<string>)
    ensures forall i :: 0 <= i < |r| ==> r[i] != "" && r[i] != "." && '/' !in r[i]
  {
    KeepNamed(Split(s, '/'))
  }

  function KeepNamed(pieces: seq<string>): (r: seq<string>)
    ensures forall i :: 0 <= i < |r| ==> r[i] != "" && r[i] != "." && r[i] in pieces
    ensures |r| <= |pieces|
  {
    if pieces == [] then []
    else (if pieces[0] == "" || pieces[0] == "." then [] else [pieces[0]]) + KeepNamed(pieces[1..])
  }

  /** Every piece that is a name is kept, and nothing else. */
  lemma {:induction false} KeepNamedMember(pieces: seq<string>, x: string)
    ensures x in KeepNamed(pieces) <==> x in pieces && x != "" && x != "."
  {
    if pieces != [] {
      KeepNamedMember(pieces[1..], x);
      assert pieces == [pieces[0]] + pieces[1..];
    }
  }

  /** The components are exactly the `/`-pieces other than `""` and `.`. */
  lemma ComponentsMember(s: string, x: string)
    ensures x in Components(s) <==> x in Split(s, '/') && x != "" && x != "."
  {
    KeepNamedMember(Split(s, '/'), x);
  }

  lemma {:induction false} KeepNamedAppend(a: seq<string>, b: seq<string>)
    ensures KeepNamed(a + b) == KeepNamed(a) + KeepNamed(b)
  {
    if a != [] {
      assert (a + b)[1..] == a[1..] + b;
      KeepNamedAppend(a[1..], b);
    } else {
      assert a + b == b;
    }
  }

  /** `Path(s).parts`. */
  function Parts(s: string): (r: seq<string>)
  {
    (if Root(s) == "" then [] else [Root(s)]) + Components(s)
  }

  /** A component name that `Path` keeps as it is. */
  predicate IsName(n: string)
  {
    n != "" && n != "." && '/' !in n
  }

  /** `is_file_in_directory(directory, file)`: the first `len(directory.parts)`
      parts of `file` are the parts of `directory` (Python slicing stops at the
      end of the shorter list). Holds exactly when the parts of `directory` are
      a prefix of those of `file`. */
  function IsFileInDirectory(directory: string, file: string): (r: bool)
    ensures r <==> Parts(directory) <= Parts(file)
    ensures |Parts(file)| < |Parts(directory)| ==> !r
  {
    var d := Parts(directory);
    var f := Parts(file);
    f[..if |d| < |f| then |d| else |f|] == d
  }

  lemma IsFileInDirectoryReflexive(p: string)
    ensures IsFileInDirectory(p, p)
  {
  }

  lemma IsFileInDirectoryTransitive(a: string, b: string, c: string)
    requires IsFileInDirectory(a, b) && IsFileInDirectory(b, c)
    ensures IsFileInDirectory(a, c)
  {
  }

  /** A root stays the same when more is appended after a non-slash character. */
  lemma {:induction false} RootExtend(d: string, t: string)
    requires exists i :: 0 <= i < |d| && d[i] != '/'
    ensures Root(d + t) == Root(d)
  {
    var i :| 0 <= i < |d| && d[i] != '/';
    if i == 0 {
    } else if i == 1 {
      assert !("//" <= d) && !("//" <= d + t);
    } else if i == 2 {
      assert ("//" <= d) == ("//" <= d + t);
      assert !("///" <= d) && !("///" <= d + t);
    } else {
      assert |d| >= 3;
      assert d[..3] == (d + t)[..3];
      assert ("/" <= d) == ("/" <= d + t);
      assert ("//" <= d) == ("//" <= d + t);
      assert ("///" <= d) == ("///" <= d + t);
    }
  }

  /** A path with a named component holds a character other than `/`. */
  lemma HasNonSlash(d: string)
    requires Components(d) != []
    ensures exists i :: 0 <= i < |d| && d[i] != '/'
  {
    var pieces := Split(d, '/');
    assert Components(d)[0] in pieces;
    var k :| 0 <= k < |pieces| && pieces[k] == Components(d)[0];
    NonSlashInPiece(pieces, k);
    JoinSplit(d, '/');
  }

  /** The components of a path extended by one name. */
  lemma ComponentsOfChild(d: string, n: string)
    requires IsName(n)
    ensures Components(d + "/" + n) == Components(d) + [n]
  {
    assert d + "/" + n == d + ['/'] + n;
    SplitAround(d, n, '/');
    SplitFree(n, '/');
    KeepNamedAppend(Split(d, '/'), [n]);
    assert KeepNamed([n]) == [n] by {
      assert KeepNamed([n][1..]) == [];
    }
  }

  /** A file named `n` directly below a directory with at least one named
      component has the directory's parts plus `n`, so it is in that
      directory and the directory is not in it. */
  lemma ChildIsInDirectory(d: string, n: string)
    requires Components(d) != []
    requires IsName(n)
    ensures Parts(d + "/" + n) == Parts(d) + [n]
    ensures IsFileInDirectory(d, d + "/" + n)
    ensures !IsFileInDirectory(d + "/" + n, d)
  {
    HasNonSlash(d);
    RootExtend(d, "/" + n);
    assert d + "/" + n == d + ("/" + n);
    ComponentsOfChild(d, n);
    var rd := if Root(d) == "" then [] else [Root(d)];
    assert Parts(d + "/" + n) == rd + (Components(d) + [n]);
    assert Parts(d) + [n] == rd + Components(d) + [n];
  }

  /** A non-empty piece of a split string shows that the string holds a
      character other than the separator. */
  lemma {:induction false} NonSlashInPiece(pieces: seq<string>, k: nat)
    requires k < |pieces| && pieces[k] != ""
    requires forall i :: 0 <= i < |pieces| ==> '/' !in pieces[i]
    ensures exists i :: 0 <= i < |JoinWith(pieces, '/')| && JoinWith(pieces, '/')[i] != '/'
  {
    var c := pieces[k][0];
    assert c != '/';
    if |pieces| == 1 {
      assert JoinWith(pieces, '/')[0] == c;
    } else if k == 0 {
      assert JoinWith(pieces, '/')[0] == c;
    } else {
      NonSlashInPiece(pieces[1..], k - 1);
      var rest := JoinWith(pieces[1..], '/');
      var i :| 0 <= i < |rest| && rest[i] != '/';
      var whole := JoinWith(pieces, '/');
      assert whole == pieces[0] + ['/'] + rest;
      assert whole[|pieces[0]| + 1 + i] == rest[i];
    }
  }

  /** Directories are compared by components, not by characters: below the
      same directory, the entry `m` is not inside a different entry `n`, even
      when `n` is a character prefix of `m`. */
  lemma SiblingNotInDirectory(d: string, n: string, m: string)
    requires Components(d) != []
    requires IsName(n) && IsName(m) && n != m
    ensures !IsFileInDirectory(d + "/" + n, d + "/" + m)
  {
    ChildIsInDirectory(d, n);
    ChildIsInDirectory(d, m);
    var k := |Parts(d)|;
    assert Parts(d + "/" + n)[k] == n;
    assert Parts(d + "/" + m)[k] == m;
  }
}
