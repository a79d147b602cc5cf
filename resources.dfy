/**
 * Processor resource lookup of `ocrd_utils.os`, after the search order of the
 * OCR-D `ocrd_tool` "file parameters" specification: current directory, the
 * processor's `<EXECUTABLE>_PATH` variable, the user data directory, the
 * system data directory, and the processor's module directory.
 *
 * The environment is a map, the user data directory (`XDG_DATA_HOME`) and the
 * working directory are parameters, and `os.path.join` is passed in as a
 * two-argument function `join`; a join of more arguments is the left fold
 * `join(join(a, b), c)`, as in `posixpath.join`.
 */
module Resources {
  import opened TextOps
  import opened Wrappers

  const PathVarSuffix := "_PATH"
  const ResourcesDirName := "ocrd-resources"
  const SystemResourcesDir := "/usr/local/share/ocrd-resources"

  /** `'%s_PATH' % executable.replace('-', '_').upper()`. */
  function ProcessorPathVar(executable: string): (r: string)
    ensures |r| == |executable| + |PathVarSuffix| && r[|executable|..] == PathVarSuffix
    ensures forall i :: 0 <= i < |executable| ==> r[i] != '-' && !IsLowerAscii(r[i])
    ensures forall i :: 0 <= i < |executable| ==>
              if executable[i] == '-' then r[i] == '_' else r[i] == UpperChar(executable[i])
  {
    ReplaceUpper(executable, '-', '_') + PathVarSuffix
  }

  lemma ProcessorPathVarExample()
    ensures ProcessorPathVar("ocrd-foo") == "OCRD_FOO_PATH"
  {
    var r := ProcessorPathVar("ocrd-foo");
    assert r[..8] == "OCRD_FOO";
    assert r == r[..8] + r[8..];
  }

  /** The directories listed in the processor's path variable, in order; none
      when the variable is not set. An empty or `:`-delimited empty entry is
      kept, as `str.split` keeps it. */
  function PathEntries(executable: string, env: map<string, string>): (r: seq<string>)
    ensures ProcessorPathVar(executable) !in env ==> r == []
    ensures ProcessorPathVar(executable) in env ==>
              var value := env[ProcessorPathVar(executable)];
              && |r| == Count(value, ':') + 1
              && JoinWith(r, ':') == value
              && forall i :: 0 <= i < |r| ==> ':' !in r[i]
  {
    var pathVar := ProcessorPathVar(executable);
    if pathVar in env then
      JoinSplit(env[pathVar], ':');
      Split(env[pathVar], ':')
    else []
  }

  /** Python truthiness of the optional module directory: `None` and the
      empty string both mean "not given". */
  predicate IsGiven(moduled: Option<string>)
  {
    moduled.Some? && moduled.value != ""
  }

  /** `list_resource_candidates(executable, fname, cwd, moduled)`. */
  method ListResourceCandidates(executable: string, fname: string, cwd: string,
                                moduled: Option<string>, env: map<string, string>,
                                xdgDataHome: string, join: (string, string) -> string)
    returns (candidates: seq<string>)
    ensures var entries := PathEntries(executable, env);
      && |candidates| == 3 + |entries| + (if IsGiven(moduled) then 1 else 0)
      && candidates[0] == join(cwd, fname)
      && (forall i :: 0 <= i < |entries| ==> candidates[1 + i] == join(entries[i], fname))
      && candidates[1 + |entries|] == join(join(join(xdgDataHome, ResourcesDirName), executable), fname)
      && candidates[2 + |entries|] == join(join(SystemResourcesDir, executable), fname)
      && (IsGiven(moduled) ==> candidates[3 + |entries|] == join(moduled.value, fname))
  {
    candidates := [];
    candidates := candidates + [join(cwd, fname)];
    var pathVar := ProcessorPathVar(executable);
    if pathVar in env {
      var dirs := Split(env[pathVar], ':');
      candidates := candidates + seq(|dirs|, i requires 0 <= i < |dirs| => join(dirs[i], fname));
    }
    candidates := candidates + [join(join(join(xdgDataHome, ResourcesDirName), executable), fname)];
    candidates := candidates + [join(join(SystemResourcesDir, executable), fname)];
    if IsGiven(moduled) {
      candidates := candidates + [join(moduled.value, fname)];
    }
  }

  /** One parameter declaration of an `ocrd_tool` description: its attribute
      names and (string) values. Only `content-type` is consulted. */
  type ParamDecl = map<string, string>

  const ContentTypeKey := "content-type"
  const AnyType := "*/*"

  predicate Declares(p: ParamDecl)
  {
    ContentTypeKey in p
  }

  /** The declared content types, in parameter order (the list comprehension
      of `get_processor_resource_types`). */
  function DeclaredTypes(params: seq<ParamDecl>): (r: seq<string>)
    ensures |r| <= |params|
    ensures r == [] <==> forall i :: 0 <= i < |params| ==> !Declares(params[i])
  {
    if params == [] then []
    else
      (if Declares(params[0]) then [params[0][ContentTypeKey]] else []) + DeclaredTypes(params[1..])
  }

  /** `get_processor_resource_types(executable, ocrd_tool)` for a given,
      non-empty `ocrd_tool` whose `parameters` values are `params`. */
  function ResourceTypes(params: seq<ParamDecl>): (r: seq<string>)
    ensures r != []
    ensures (forall i :: 0 <= i < |params| ==> !Declares(params[i])) ==> r == [AnyType]
    ensures (exists i :: 0 <= i < |params| && Declares(params[i])) ==> r == DeclaredTypes(params)
    ensures r == [AnyType] <==>
              (forall i :: 0 <= i < |params| ==> !Declares(params[i])) || DeclaredTypes(params) == [AnyType]
  {
    if !(exists i :: 0 <= i < |params| && Declares(params[i])) then [AnyType]
    else DeclaredTypes(params)
  }

  /** Collecting content types distributes over concatenation of parameter
      lists, so their order is the parameters' order. */
  lemma {:induction false} DeclaredTypesAppend(a: seq<ParamDecl>, b: seq<ParamDecl>)
    ensures DeclaredTypes(a + b) == DeclaredTypes(a) + DeclaredTypes(b)
  {
    if a == [] {
      assert a + b == b;
    } else {
      var head := if Declares(a[0]) then [a[0][ContentTypeKey]] else [];
      assert (a + b)[0] == a[0];
      assert (a + b)[1..] == a[1..] + b;
      assert DeclaredTypes(a + b) == head + DeclaredTypes(a[1..] + b);
      DeclaredTypesAppend(a[1..], b);
      assert DeclaredTypes(a) == head + DeclaredTypes(a[1..]);
    }
  }

  /** A type is collected exactly when some parameter declares it. */
  lemma {:induction false} DeclaredTypesMember(params: seq<ParamDecl>, t: string)
    ensures t in DeclaredTypes(params) <==>
              exists i :: 0 <= i < |params| && Declares(params[i]) && params[i][ContentTypeKey] == t
  {
    if params != [] {
      DeclaredTypesMember(params[1..], t);
      var head := if Declares(params[0]) then [params[0][ContentTypeKey]] else [];
      assert DeclaredTypes(params) == head + DeclaredTypes(params[1..]);
      if exists i :: 0 <= i < |params| && Declares(params[i]) && params[i][ContentTypeKey] == t {
        var i :| 0 <= i < |params| && Declares(params[i]) && params[i][ContentTypeKey] == t;
        if i > 0 {
          assert params[1..][i - 1] == params[i];
        }
      }
      if exists j :: 0 <= j < |params[1..]| && Declares(params[1..][j]) && params[1..][j][ContentTypeKey] == t {
        var j :| 0 <= j < |params[1..]| && Declares(params[1..][j]) && params[1..][j][ContentTypeKey] == t;
        assert params[j + 1] == params[1..][j];
      }
    }
  }
}
