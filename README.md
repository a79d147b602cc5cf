# OCR-D core: resource lookup, path helpers and the METS image initializer

This project models two pieces of the OCR-D core in Dafny and proves properties of them.

**`ocrd_utils.os`**, the operating-system helpers:

- `abspath` accepts `file://` URLs and passes the rest to the platform resolver.
- `list_resource_candidates` lists where a processor resource may be found. The search order follows the "file parameters" section of the OCR-D `ocrd_tool` specification:
  1. the working directory;
  2. each entry of the processor's `<EXECUTABLE>_PATH` variable;
  3. `$XDG_DATA_HOME/ocrd-resources/<executable>`;
  4. `/usr/local/share/ocrd-resources/<executable>`;
  5. the processor's module directory, if one is given.
- `get_processor_resource_types` reads the resource MIME types a processor declares in its `ocrd_tool` description.
- `is_file_in_directory` is a prefix test on `pathlib` path components.
- `itertree` is the post-order walk of a directory tree.
- `AtomicWriterPerms.get_fileobject` chooses the mode of the file it writes. For a new file the source emulates file creation with its own base mode: `0o664 & ~umask`.

**`ocrd.init.Initializer`** reads the `IMAGE` file groups of a METS document. It downloads each image and keeps two tables keyed by a derived image ID. `img_src` maps the ID to the source URL. `img_files` maps it to the local file name: the working directory, `/`, then the URL's basename.

## How the model is built

- The `Wrappers` module holds the `Option` type.
- `TextOps` models the Python string operations used by the source:
  - `str.split` with a one-character separator;
  - `str.rstrip` with a set of characters;
  - `os.path.basename`;
  - ASCII `str.upper` together with `str.replace`.
- `OsPaths` holds `abspath` and the POSIX `pathlib` parts, meaning the root and the named components. `OsPaths.Parts` models `Path(s).parts` (os.py:169-171).
- The environment is a `map<string, string>`. The current directory and `XDG_DATA_HOME` are parameters.
- `os.path.join` and the platform `os.path.abspath` are passed in as function values. A join of several arguments is the left fold of the two-argument join, as `posixpath.join` computes it.
- `list_resource_candidates` builds its list step by step in the source, so it is a `method` here, like the source's sequence of appends.
- `FileTree.IterTree` models the sequence `itertree` yields (os.py:173-182); `FileTree.Walk` is the same walk over entries.
- The directory tree is a datatype, `FileTree.Entry`. Each directory lists its entries in `iterdir` order. `FileTree.WellFormed` says the tree is one that real directory listings produce: each child path has the parts of its directory plus one name, and siblings have different paths.
- File modes are `bv32`. The umask is a small class, `FileMode.ProcessUmask`, because `os.umask` replaces state.
- `Initializer` is a class. Its fields are `workingDir`, `imgSrc`, `imgFiles` and `fulltext`, so `clear`, `set_working_dir` and `_load_images` update them in place.
- The METS tree and the HTTP responses are replaced by their inputs. `_load_images` takes the `IMAGE` file groups in document order. Each group is a sequence of `ImageFile(id, href, status)` records: the `ID` attribute, the `FLocat` `xlink:href`, and the status code of the download.
- `Init.DeriveId` models the key `img_ID.rstrip("_IMAGE")` (initializing.py:85). `TextOps.Basename` models `os.path.basename`, and `Init.LocalPath` models the file name `"%s/%s" % (working_dir, basename(img_url))` (initializing.py:92).
- The loops of `_load_images` are proved against left folds, `Init.SrcAfter` and `Init.FilesAfter`. The lemmas about the source's promises are proved about those folds.

The image key is `img_ID.rstrip("_IMAGE")`. This is modelled exactly as written: it removes the longest trailing run of the characters `_`, `I`, `M`, `A`, `G` and `E`. On an ID such as `PAGE_IMAGE` it removes more than the suffix `_IMAGE`; `Init.DeriveIdIsNotSuffixRemoval` shows this.

## Model

| member | source | states |
|---|---|---|
| OsPaths.StripFileScheme | ocrd_utils/ocrd_utils/os.py:33-34 | a URL that starts with `file://` is that scheme followed by the result; any other URL is returned unchanged |
| OsPaths.AbsPath | ocrd_utils/ocrd_utils/os.py:27-35 | the result is the resolver applied to a path `p`; the URL is either `file://` + `p`, or is `p` itself and does not start with `file://` |
| OsPaths.AbsPathOfFileUrl | ocrd_utils/ocrd_utils/os.py:33-35 | for `file://` + `p` the resolver receives exactly `p`; only one prefix is removed, even when `p` itself starts with `file://` |
| OsPaths.AbsPathOfPlainPath | ocrd_utils/ocrd_utils/os.py:33-35 | a path without the `file://` prefix reaches the resolver unchanged |
| TextOps.Split | ocrd_utils/ocrd_utils/os.py:75 | `str.split` with one separator: one more piece than there are separators, and no piece holds the separator |
| TextOps.JoinSplit | ocrd_utils/ocrd_utils/os.py:75 | joining the pieces with the separator gives back the split string |
| TextOps.SplitJoin | ocrd_utils/ocrd_utils/os.py:75 | splitting the join of a non-empty list of separator-free pieces gives back those pieces |
| TextOps.SplitAround | ocrd_utils/ocrd_utils/os.py:75 | splitting `a + sep + b` gives the pieces of `a` followed by the pieces of `b` |
| Resources.ProcessorPathVar | ocrd_utils/ocrd_utils/os.py:73 | the variable name has one character per character of the executable, followed by `_PATH`; `-` becomes `_`, every other character is upper-cased, and the result holds no `-` and no lower-case ASCII letter before the suffix |
| Resources.ProcessorPathVarExample | ocrd_utils/ocrd_utils/os.py:73 | `ocrd-foo` gives `OCRD_FOO_PATH` |
| Resources.PathEntries | ocrd_utils/ocrd_utils/os.py:74-75 | no entries when the variable is unset; otherwise one entry more than there are `:` in its value, none holding `:`, and joined with `:` they give the value back |
| Resources.ListResourceCandidates | ocrd_utils/ocrd_utils/os.py:66-80 | exactly `3 + #entries + (1 if moduled is given)` candidates, in this order: `join(cwd, fname)`; one per path entry, in the entries' order; the XDG candidate; the system candidate; the module candidate last and only when `moduled` is non-empty |
| Resources.DeclaredTypes | ocrd_utils/ocrd_utils/os.py:140-141 | at most one type per parameter; empty exactly when no parameter declares `content-type` |
| Resources.ResourceTypes | ocrd_utils/ocrd_utils/os.py:135-141 | never empty; exactly `['*/*']` when no parameter declares `content-type`; otherwise the declared types; the result is `['*/*']` exactly when nothing is declared or the only declared type is `*/*` |
| Resources.DeclaredTypesAppend | ocrd_utils/ocrd_utils/os.py:140-141 | the types of two concatenated parameter lists are the types of the first list followed by those of the second, so the parameters' order is kept |
| Resources.DeclaredTypesMember | ocrd_utils/ocrd_utils/os.py:140-141 | a type is in the result exactly when some parameter declares it |
| OsPaths.Components | ocrd_utils/ocrd_utils/os.py:169-171 | the path components after the root: none is empty, `.` or holds a `/` |
| OsPaths.KeepNamedMember | ocrd_utils/ocrd_utils/os.py:169-171 | a piece is kept exactly when it is one of the pieces and is neither empty nor `.` |
| OsPaths.ComponentsMember | ocrd_utils/ocrd_utils/os.py:169-171 | the components are exactly the `/`-separated pieces other than `""` and `.`, so no named piece is lost |
| OsPaths.IsFileInDirectory | ocrd_utils/ocrd_utils/os.py:165-171 | holds exactly when the directory's parts are a prefix of the file's parts; false whenever the file has fewer parts |
| OsPaths.IsFileInDirectoryReflexive | ocrd_utils/ocrd_utils/os.py:165-171 | every path is in itself |
| OsPaths.IsFileInDirectoryTransitive | ocrd_utils/ocrd_utils/os.py:165-171 | being in a directory is transitive |
| OsPaths.ChildIsInDirectory | ocrd_utils/ocrd_utils/os.py:165-171 | for a directory `d` with a named component and a name `n`, `d/n` has the parts of `d` plus `n`; it is in `d`, and `d` is not in it |
| OsPaths.SiblingNotInDirectory | ocrd_utils/ocrd_utils/os.py:165-171 | below the same directory `d`, for a `d` with a named component, a name that is a character prefix of a different name is still not a directory containing it |
| FileTree.Walk | ocrd_utils/ocrd_utils/os.py:173-182 | the walk of an entry is never empty and ends with the entry itself |
| FileTree.WalkLength | ocrd_utils/ocrd_utils/os.py:173-182 | the walk visits as many entries as the tree has nodes |
| FileTree.WalkMember | ocrd_utils/ocrd_utils/os.py:173-182 | an entry is visited exactly when it is the root or lies below it |
| FileTree.WalkSegment | ocrd_utils/ocrd_utils/os.py:179-182 | post-order: each visited entry comes directly after the walk of everything below it |
| FileTree.DescendantsComeFirst | ocrd_utils/ocrd_utils/os.py:179-182 | every descendant of a visited directory is visited before it |
| FileTree.JoinedNameIsChild | ocrd_utils/ocrd_utils/os.py:180 | a path `d/n`, for a directory `d` with a named component and a name `n`, is a child of `d` in the sense of `WellFormed` |
| FileTree.IterTreeDistinct | ocrd_utils/ocrd_utils/os.py:173-182 | in a well-formed tree, `itertree` yields as many paths as the tree has nodes; no two yielded paths have the same parts (no `Path` twice), and so no string twice |
| FileTree.IterTreeInDirectory | ocrd_utils/ocrd_utils/os.py:173-182 | in a well-formed tree, every yielded path is in the starting directory, in the sense of `is_file_in_directory` |
| FileTree.IterTreeDescendantsFirst | ocrd_utils/ocrd_utils/os.py:179-182 | in a well-formed tree, the path of every descendant of a directory is yielded before the directory's own path, and at no other position |
| FileMode.NewFileMode | ocrd_utils/ocrd_utils/os.py:154 | the new-file mode holds no bit of the umask and no bit outside `0o664`, and together with the umask it covers `0o664` |
| FileMode.NewFileModeUnique | ocrd_utils/ocrd_utils/os.py:154 | the three properties of `NewFileMode` determine the mode |
| FileMode.ProcessUmask.SetUmask | ocrd_utils/ocrd_utils/os.py:152-153 | `os.umask(m)` returns the previous mask and installs the permission bits of `m` |
| FileMode.FileObjectMode | ocrd_utils/ocrd_utils/os.py:146-156 | an existing file keeps the mode `stat` reports; a new file gets `0o664 & ~mask` for the umask that was in force; either way the umask ends as it was |
| TextOps.RStrip | ocrd/init/initializing.py:85 | `str.rstrip(chars)`: the result is a prefix, does not end in a character of `chars`, and every character it removed is in `chars` |
| TextOps.RStripUnique | ocrd/init/initializing.py:85 | those three facts determine `rstrip`'s result |
| TextOps.RStripOfSuffix | ocrd/init/initializing.py:85 | stripping `chars` from `p + chars` gives `p` when `p` does not end in a character of `chars` |
| TextOps.RStripRun | ocrd/init/initializing.py:85 | appending characters from `chars` does not change the result of the strip |
| Init.DeriveIdStrips | ocrd/init/initializing.py:84-85 | the key is the image ID with its longest trailing run of `_`, `I`, `M`, `A`, `G`, `E` removed |
| Init.DeriveIdOfSuffixed | ocrd/init/initializing.py:85 | the key is the ID without the `_IMAGE` suffix exactly when the character before `_IMAGE` is not in that set |
| Init.DeriveIdIsNotSuffixRemoval | ocrd/init/initializing.py:85 | `PAGE_IMAGE` and `PIMAGE` both become `P`, and `IMAGE` becomes the empty key |
| TextOps.BasenameIsLastPart | ocrd/init/initializing.py:92 | the basename is a suffix of the URL with no `/`; whatever comes before it ends in `/` |
| Init.LastIndex | ocrd/init/initializing.py:80-92 | the position of the last successful entry whose ID becomes the key, or -1; no later entry is recorded under that key |
| Init.RecordedIdsLastIndex | ocrd/init/initializing.py:90-92 | a key is recorded exactly when some successful entry derives it |
| Init.SrcAfter | ocrd/init/initializing.py:80-91 | after the loop, the keys of `img_src` are the old keys plus the recorded keys |
| Init.FilesAfter | ocrd/init/initializing.py:80-92 | after the loop, the keys of `img_files` are the old keys plus the recorded keys |
| Init.SrcLastWins | ocrd/init/initializing.py:90-91 | `img_src[k]` is the URL of the last successful entry with key `k`, so later entries overwrite earlier ones; a key nothing recorded keeps its old value |
| Init.FilesLastWins | ocrd/init/initializing.py:90-92 | `img_files[k]` is `working_dir + "/" + basename(url)` for the URL of the last successful entry with key `k`; a key nothing recorded keeps its old value |
| Init.FilesFollowSources | ocrd/init/initializing.py:91-92 | for every recorded key, both tables hold it and `img_files[k]` is `working_dir + "/" + basename(img_src[k])` |
| Init.Successful | ocrd/init/initializing.py:90 | an entry is kept exactly when it is one of the entries and has status 200; no more entries than there were |
| Init.SuccessfulAppend | ocrd/init/initializing.py:90 | filtering keeps the order: the successful entries of `a + b` are those of `a` followed by those of `b` |
| Init.FailedDownloadsIgnoredSrc | ocrd/init/initializing.py:90-91 | dropping every download whose status is not 200 gives the same `img_src` |
| Init.FailedDownloadsIgnoredFiles | ocrd/init/initializing.py:90-92 | dropping every download whose status is not 200 gives the same `img_files` |
| Init.SrcStep | ocrd/init/initializing.py:84-91 | one more entry sets `img_src[key] = url` when its status is 200 and leaves the table unchanged otherwise |
| Init.FilesStep | ocrd/init/initializing.py:84-92 | one more entry sets `img_files[key]` to the local path when its status is 200 and leaves the table unchanged otherwise |
| Init.SrcAfterAppend | ocrd/init/initializing.py:80-82 | running the loop body over two lists of entries is running it over the first list, then the second |
| Init.FilesAfterAppend | ocrd/init/initializing.py:80-82 | the same for `img_files` |
| Init.Initializer.constructor | ocrd/init/initializing.py:14-19 | a new initializer is in the state `clear` leaves |
| Init.Initializer.Clear | ocrd/init/initializing.py:21-30 | the working directory is `./` and `img_src`, `img_files` and `fulltext` are empty |
| Init.Initializer.SetWorkingDir | ocrd/init/initializing.py:32-36 | the working directory becomes `path` and the three tables are unchanged |
| Init.Initializer.LoadGroup | ocrd/init/initializing.py:81-92 | the inner loop over one file group: both tables become their folds over the group's entries, and the working directory and `fulltext` are unchanged |
| Init.Initializer.LoadImages | ocrd/init/initializing.py:75-92 | both tables become their folds over all entries in document order and still have equal key sets; the keys of `img_src` are the old keys plus the recorded keys; every recorded key is in both tables, with `img_files[k] == working_dir + "/" + basename(img_src[k])`; the working directory and `fulltext` are unchanged |

## Left out

- `pushd_popd`: it changes the process's working directory and creates temporary directories. This is side-effect plumbing with nothing to compute.
- `unzip_file_to_dir`: it only calls `zipfile`.
- `atomic_write`: it is file I/O through the `atomicwrites` package. Only the mode that `AtomicWriterPerms.get_fileobject` computes is modelled. The temporary file, `fileno` and `chmod` are not.
- FileMode.FileObjectMode: the model is sequential. In the source, reading the umask sets the process-wide umask to 0 for a moment. Another thread that creates a file in that window gets a mode without the umask applied.
- `stat` errors other than `FileNotFoundError` are not modelled, since they propagate out of `get_fileobject`.
- `list_all_resources`: it enumerates real directories and matches `Path.match` glob patterns.
- `get_processor_resource_types`, subprocess branch: an absent or empty `ocrd_tool` makes it look up the executable with `which`, run it with `--dump-json` and parse JSON. That is process and file access, so only the branch with a non-empty `ocrd_tool` is modelled, as a sequence of parameter declarations.
- `get_processor_resource_types`, missing `parameters`: the `KeyError` raised when `ocrd_tool` has no `parameters` key is not modelled.
- Resources.ResourceTypes: the comprehension `[p['content-type'] ...]` is also `['*/*']` when the only declared type is `*/*`. So the source returns `['*/*']` in that case too, not only when nothing is declared. The contract states both cases.
- `os.path.join` and `os.path.abspath` are parameters. Their normalisation and their use of the file system are not modelled.
- Resources.ListResourceCandidates: the model always takes `cwd` explicitly. In the source, the default `cwd=getcwd()` is evaluated once, when `ocrd_utils.os` is imported. A call without `cwd` after a `chdir` (for example inside `pushd_popd`) still uses the directory of import time.
- `XDG_DATA_HOME` comes from `ocrd_utils/constants.py`. That file is not part of this model, so the value is a parameter.
- Resources.ProcessorPathVar: upper-cases ASCII letters only. Python's `str.upper` also maps other letters (and can lengthen some); that is not modelled.
- FileTree.IterTree: the real `Path.is_dir`/`iterdir` calls and symbolic links are not modelled. The tree they would find is the input.
- FileTree.IterTree: the source yields `Path` objects, whose spelling is normalised (`a/` becomes `a`, `a/./b` becomes `a/b`). The model yields each entry's path string as given. Equal parts are what `Path` equality compares, and `IterTreeDistinct` states distinctness of both.
- FileTree.WalkLength: on entries, "each node exactly once" is stated as two facts. The walk has one entry per node of the tree (`WalkLength`). An entry is in the walk exactly when it is in the tree (`WalkMember`). Two equal subtrees at different places count as separate nodes. On paths, the lemmas state it for well-formed trees only; a tree whose paths do not follow its structure can yield a path twice.
- `Initializer.tree` is not modelled: the ElementTree object `clear` creates, and the XML parsing and XPath `findall` calls.
- `load`, `load_string` (an empty stub), `initialize` and `_load_or_create_page` (which only prints) are not modelled.
- `requests.get`: each entry's status code is part of the input instead.
- The image file writes are not modelled.
- Init.Initializer.LoadImages: the model assumes that every download returns a status and every image write succeeds. In the source, `requests.get` can raise, and so can `open(self.img_files[ID], 'wb')`. One example is a URL ending in `/`, whose empty basename names the working directory itself. Another is a missing working directory. `open` runs after both tables already hold the entry. So the source stops with the tables filled up to and including the failing entry and skips every later one. The model goes on recording.
- Init.Initializer.LoadImages: the source raises `AttributeError` when a `mets:file` has no `ID` attribute or no `mets:FLocat`. The model has no such case: every entry carries an ID and an href.
- Init.Initializer.LoadGroup: in the source, the inner loop over one file group is written inline in `_load_images`. Here it is a separate method.
- The CLI in `ocrd/cli/workspace.py`, the processing broker and the tests call into code that is not part of this model.
