/**
 * The bookkeeping of `ocrd.init.Initializer`: the working directory and the
 * tables from derived image IDs to source URLs and to local file names that
 * `_load_images` fills.
 *
 * The METS document is abstracted as the sequence of `IMAGE` file groups,
 * each a sequence of `mets:file` entries in document order, and the result of
 * downloading each image as the HTTP status code that comes with the entry.
 */
module Init {
  import opened TextOps

  /** One `mets:file` of an `IMAGE` file group: its `ID` attribute, the
      `xlink:href` of its `mets:FLocat`, and the status code its download
      answered with. */
  datatype ImageFile = ImageFile(id: string, href: string, status: int)

  const StatusOk := 200
  /** The argument of `img_ID.rstrip(...)`: a set of characters. */
  const ImageSuffix := "_IMAGE"

  /** `img_ID.rstrip("_IMAGE")`. */
  function DeriveId(imgId: string): string
  {
    RStrip(imgId, ImageSuffix)
  }

  /** The derived ID is the image ID with its maximal trailing run of `_`,
      `I`, `M`, `A`, `G` and `E` removed. */
  lemma DeriveIdStrips(imgId: string)
    ensures var r := DeriveId(imgId);
      && r <= imgId
      && (r == [] || r[|r| - 1] !in ImageSuffix)
      && forall i :: |r| <= i < |imgId| ==> imgId[i] in ImageSuffix
  {
  }

  /** Where the IDs coincide with suffix removal: exactly when the character
      before `_IMAGE` is not one of `_`, `I`, `M`, `A`, `G`, `E`. */
  lemma DeriveIdOfSuffixed(p: string)
    ensures DeriveId(p + ImageSuffix) == p <==> (p == [] || p[|p| - 1] !in ImageSuffix)
  {
    if p == [] || p[|p| - 1] !in ImageSuffix {
      RStripOfSuffix(p, ImageSuffix);
    }
  }

  /** Where they do not: the set-based strip eats into the name, and two
      different image IDs can end up with the same key. */
  lemma DeriveIdIsNotSuffixRemoval()
    ensures DeriveId("PAGE_IMAGE") == "P"
    ensures DeriveId("PIMAGE") == "P"
    ensures DeriveId("IMAGE") == ""
  {
    assert RStrip("P", ImageSuffix) == "P";
    assert RStrip("", ImageSuffix) == "";
    assert "PAGE_IMAGE" == "P" + "AGE_IMAGE";
    RStripRun("P", "AGE_IMAGE", ImageSuffix);
    assert "PIMAGE" == "P" + "IMAGE";
    RStripRun("P", "IMAGE", ImageSuffix);
    assert "IMAGE" == "" + "IMAGE";
    RStripRun("", "IMAGE", ImageSuffix);
  }

  /** `"%s/%s" % (working_dir, os.path.basename(img_url))`. */
  function LocalPath(workingDir: string, url: string): string
  {
    workingDir + "/" + Basename(url)
  }

  /** An entry that `_load_images` records under key `k`. */
  predicate Records(f: ImageFile, k: string)
  {
    f.status == StatusOk && DeriveId(f.id) == k
  }

  /** The keys the downloads in `fs` record. */
  function RecordedIds(fs: seq<ImageFile>): set<string>
  {
    if fs == [] then {}
    else
      var f := fs[|fs| - 1];
      RecordedIds(fs[..|fs| - 1]) + (if f.status == StatusOk then {DeriveId(f.id)} else {})
  }

  /** The position of the last entry in `fs` recorded under `k`, or -1 when
      there is none. */
  function LastIndex(fs: seq<ImageFile>, k: string): (r: int)
    ensures -1 <= r < |fs|
    ensures r >= 0 ==> Records(fs[r], k)
    ensures forall j :: r < j < |fs| ==> !Records(fs[j], k)
  {
    if fs == [] then -1
    else if Records(fs[|fs| - 1], k) then |fs| - 1
    else LastIndex(fs[..|fs| - 1], k)
  }

  /** A key is recorded exactly when some entry is recorded under it. */
  lemma {:induction false} RecordedIdsLastIndex(fs: seq<ImageFile>, k: string)
    ensures k in RecordedIds(fs) <==> LastIndex(fs, k) >= 0
  {
    if fs != [] {
      RecordedIdsLastIndex(fs[..|fs| - 1], k);
    }
  }

  /** The file groups in document order, as the nested loops visit them. */
  function Flatten(groups: seq<seq<ImageFile>>): seq<ImageFile>
  {
    if groups == [] then [] else Flatten(groups[..|groups| - 1]) + groups[|groups| - 1]
  }

  /** `img_src` after the loop body has run on each of `fs`, starting from `m`. */
  function SrcAfter(m: map<string, string>, fs: seq<ImageFile>): (r: map<string, string>)
    ensures r.Keys == m.Keys + RecordedIds(fs)
  {
    if fs == [] then m
    else
      var prev := SrcAfter(m, fs[..|fs| - 1]);
      var f := fs[|fs| - 1];
      if f.status == StatusOk then prev[DeriveId(f.id) := f.href] else prev
  }

  /** `img_files` after the loop body has run on each of `fs`, starting from
      `m`, with working directory `workingDir`. */
  function FilesAfter(m: map<string, string>, workingDir: string, fs: seq<ImageFile>): (r: map<string, string>)
    ensures r.Keys == m.Keys + RecordedIds(fs)
  {
    if fs == [] then m
    else
      var prev := FilesAfter(m, workingDir, fs[..|fs| - 1]);
      var f := fs[|fs| - 1];
      if f.status == StatusOk then prev[DeriveId(f.id) := LocalPath(workingDir, f.href)] else prev
  }

  /** The later entry wins: `img_src[k]` is the URL of the last successful
      download whose ID derives to `k`; a key nothing recorded keeps its old
      value. */
  lemma {:induction false} SrcLastWins(m: map<string, string>, fs: seq<ImageFile>, k: string)
    ensures LastIndex(fs, k) >= 0 ==> k in SrcAfter(m, fs) && SrcAfter(m, fs)[k] == fs[LastIndex(fs, k)].href
    ensures LastIndex(fs, k) < 0 && k in m ==> SrcAfter(m, fs)[k] == m[k]
  {
    if fs != [] {
      var init := fs[..|fs| - 1];
      SrcLastWins(m, init, k);
      if !Records(fs[|fs| - 1], k) {
        assert LastIndex(fs, k) == LastIndex(init, k);
        if LastIndex(init, k) >= 0 {
          assert fs[LastIndex(init, k)] == init[LastIndex(init, k)];
        }
      }
    }
  }

  /** The same for `img_files`: the local name of the last successful
      download whose ID derives to `k`. */
  lemma {:induction false} FilesLastWins(m: map<string, string>, workingDir: string, fs: seq<ImageFile>, k: string)
    ensures LastIndex(fs, k) >= 0 ==>
              k in FilesAfter(m, workingDir, fs) &&
              FilesAfter(m, workingDir, fs)[k] == LocalPath(workingDir, fs[LastIndex(fs, k)].href)
    ensures LastIndex(fs, k) < 0 && k in m ==> FilesAfter(m, workingDir, fs)[k] == m[k]
  {
    if fs != [] {
      var init := fs[..|fs| - 1];
      FilesLastWins(m, workingDir, init, k);
      if !Records(fs[|fs| - 1], k) {
        assert LastIndex(fs, k) == LastIndex(init, k);
        if LastIndex(init, k) >= 0 {
          assert fs[LastIndex(init, k)] == init[LastIndex(init, k)];
        }
      }
    }
  }

  /** The local file of every recorded image is named after the basename of
      its recorded source URL. */
  lemma FilesFollowSources(src: map<string, string>, files: map<string, string>,
                           workingDir: string, fs: seq<ImageFile>)
    ensures forall k :: k in RecordedIds(fs) ==>
              && k in SrcAfter(src, fs) && k in FilesAfter(files, workingDir, fs)
              && FilesAfter(files, workingDir, fs)[k] == LocalPath(workingDir, SrcAfter(src, fs)[k])
  {
    forall k | k in RecordedIds(fs)
      ensures FilesAfter(files, workingDir, fs)[k] == LocalPath(workingDir, SrcAfter(src, fs)[k])
    {
      RecordedIdsLastIndex(fs, k);
      SrcLastWins(src, fs, k);
      FilesLastWins(files, workingDir, fs, k);
    }
  }

  /** The successful downloads alone, in order. */
  function Successful(fs: seq<ImageFile>): (r: seq<ImageFile>)
    ensures |r| <= |fs|
    ensures forall i :: 0 <= i < |r| ==> r[i].status == StatusOk
    ensures forall x :: x in r <==> x in fs && x.status == StatusOk
  {
    if fs == [] then []
    else Successful(fs[..|fs| - 1]) + (if fs[|fs| - 1].status == StatusOk then [fs[|fs| - 1]] else [])
  }

  /** Filtering keeps the order: the successful downloads of `a + b` are
      those of `a` followed by those of `b`. */
  lemma {:induction false} SuccessfulAppend(a: seq<ImageFile>, b: seq<ImageFile>)
    ensures Successful(a + b) == Successful(a) + Successful(b)
  {
    if b == [] {
      assert a + b == a;
    } else {
      var b' := b[..|b| - 1];
      var f := b[|b| - 1];
      assert (a + b)[..|a + b| - 1] == a + b';
      assert (a + b)[|a + b| - 1] == f;
      SuccessfulAppend(a, b');
      var tail := if f.status == StatusOk then [f] else [];
      assert Successful(a + b) == Successful(a + b') + tail;
      assert Successful(b) == Successful(b') + tail;
    }
  }

  /** A download that did not answer 200 changes neither table: dropping all
      of them gives the same `img_src` ... */
  lemma {:induction false} FailedDownloadsIgnoredSrc(m: map<string, string>, fs: seq<ImageFile>)
    ensures SrcAfter(m, fs) == SrcAfter(m, Successful(fs))
  {
    if fs != [] {
      var init := fs[..|fs| - 1];
      var f := fs[|fs| - 1];
      FailedDownloadsIgnoredSrc(m, init);
      var s := Successful(fs);
      if f.status == StatusOk {
        assert s == Successful(init) + [f];
        assert s[..|s| - 1] == Successful(init) && s[|s| - 1] == f;
        assert SrcAfter(m, s) == SrcAfter(m, Successful(init))[DeriveId(f.id) := f.href];
      } else {
        assert s == Successful(init);
        assert SrcAfter(m, fs) == SrcAfter(m, init);
      }
    }
  }

  /** ... and the same `img_files`. */
  lemma {:induction false} FailedDownloadsIgnoredFiles(m: map<string, string>, workingDir: string, fs: seq<ImageFile>)
    ensures FilesAfter(m, workingDir, fs) == FilesAfter(m, workingDir, Successful(fs))
  {
    if fs != [] {
      var init := fs[..|fs| - 1];
      var f := fs[|fs| - 1];
      FailedDownloadsIgnoredFiles(m, workingDir, init);
      var s := Successful(fs);
      if f.status == StatusOk {
        assert s == Successful(init) + [f];
        assert s[..|s| - 1] == Successful(init) && s[|s| - 1] == f;
        assert FilesAfter(m, workingDir, s)
            == FilesAfter(m, workingDir, Successful(init))[DeriveId(f.id) := LocalPath(workingDir, f.href)];
      } else {
        assert s == Successful(init);
        assert FilesAfter(m, workingDir, fs) == FilesAfter(m, workingDir, init);
      }
    }
  }

  /** One more entry, one more step of the loop body. */
  lemma SrcStep(m: map<string, string>, fs: seq<ImageFile>, f: ImageFile)
    ensures SrcAfter(m, fs + [f])
         == if f.status == StatusOk then SrcAfter(m, fs)[DeriveId(f.id) := f.href] else SrcAfter(m, fs)
  {
    assert (fs + [f])[..|fs|] == fs;
  }

  lemma FilesStep(m: map<string, string>, workingDir: string, fs: seq<ImageFile>, f: ImageFile)
    ensures FilesAfter(m, workingDir, fs + [f])
         == if f.status == StatusOk then FilesAfter(m, workingDir, fs)[DeriveId(f.id) := LocalPath(workingDir, f.href)]
            else FilesAfter(m, workingDir, fs)
  {
    assert (fs + [f])[..|fs|] == fs;
  }

  /** Running the loop body over `a + b` is running it over `a`, then `b`. */
  lemma {:induction false} SrcAfterAppend(m: map<string, string>, a: seq<ImageFile>, b: seq<ImageFile>)
    ensures SrcAfter(m, a + b) == SrcAfter(SrcAfter(m, a), b)
  {
    if b == [] {
      assert a + b == a;
    } else {
      var b' := b[..|b| - 1];
      assert (a + b)[..|a + b| - 1] == a + b';
      SrcAfterAppend(m, a, b');
    }
  }

  lemma {:induction false} FilesAfterAppend(m: map<string, string>, workingDir: string,
                                            a: seq<ImageFile>, b: seq<ImageFile>)
    ensures FilesAfter(m, workingDir, a + b) == FilesAfter(FilesAfter(m, workingDir, a), workingDir, b)
  {
    if b == [] {
      assert a + b == a;
    } else {
      var b' := b[..|b| - 1];
      assert (a + b)[..|a + b| - 1] == a + b';
      FilesAfterAppend(m, workingDir, a, b');
    }
  }

  lemma FlattenStep(groups: seq<seq<ImageFile>>, g: nat)
    requires g < |groups|
    ensures Flatten(groups[..g + 1]) == Flatten(groups[..g]) + groups[g]
  {
    assert groups[..g + 1][..g] == groups[..g];
  }

  class Initializer {
    var workingDir: string
    var imgSrc: map<string, string>
    var imgFiles: map<string, string>
    var fulltext: map<string, string>

    /** Both tables are keyed by the same derived IDs. */
    ghost predicate Valid()
      reads this
    {
      imgSrc.Keys == imgFiles.Keys
    }

    /** The state `clear()` leaves behind. */
    ghost predicate IsCleared()
      reads this
    {
      workingDir == "./" && imgSrc == map[] && imgFiles == map[] && fulltext == map[]
    }

    /** `__init__`: a new initializer is cleared. */
    constructor ()
      ensures Valid() && IsCleared()
    {
      workingDir, imgSrc, imgFiles, fulltext := "", map[], map[], map[];
      new;
      Clear();
    }

    /** `clear()`. */
    method Clear()
      requires Valid()
      modifies this
      ensures Valid() && IsCleared()
    {
      SetWorkingDir("./");
      imgSrc := map[];
      imgFiles := map[];
      fulltext := map[];
    }

    /** `set_working_dir(path)`: nothing but the working directory changes. */
    method SetWorkingDir(path: string)
      requires Valid()
      modifies this
      ensures Valid()
      ensures workingDir == path
      ensures imgSrc == old(imgSrc) && imgFiles == old(imgFiles) && fulltext == old(fulltext)
    {
      workingDir := path;
    }

    /** The inner loop of `_load_images()`: the `mets:file` entries of one
        `IMAGE` file group, in order. */
    method LoadGroup(files: seq<ImageFile>)
      requires Valid()
      modifies this
      ensures Valid()
      ensures workingDir == old(workingDir) && fulltext == old(fulltext)
      ensures imgSrc == SrcAfter(old(imgSrc), files)
      ensures imgFiles == FilesAfter(old(imgFiles), workingDir, files)
    {
      var i := 0;
      while i < |files|
        invariant 0 <= i <= |files|
        invariant workingDir == old(workingDir) && fulltext == old(fulltext)
        invariant imgSrc == SrcAfter(old(imgSrc), files[..i])
        invariant imgFiles == FilesAfter(old(imgFiles), workingDir, files[..i])
      {
        var file := files[i];
        var id := DeriveId(file.id);
        assert files[..i + 1] == files[..i] + [file];
        SrcStep(old(imgSrc), files[..i], file);
        FilesStep(old(imgFiles), workingDir, files[..i], file);
        if file.status == StatusOk {
          imgSrc := imgSrc[id := file.href];
          imgFiles := imgFiles[id := LocalPath(workingDir, file.href)];
        }
        i := i + 1;
      }
      assert files[..i] == files;
    }

    /** `_load_images()` over the `IMAGE` file groups `groups`, in document
        order. */
    method LoadImages(groups: seq<seq<ImageFile>>)
      requires Valid()
      modifies this
      ensures Valid()
      ensures workingDir == old(workingDir) && fulltext == old(fulltext)
      ensures imgSrc == SrcAfter(old(imgSrc), Flatten(groups))
      ensures imgFiles == FilesAfter(old(imgFiles), workingDir, Flatten(groups))
      ensures imgSrc.Keys == old(imgSrc.Keys) + RecordedIds(Flatten(groups))
      ensures forall k :: k in RecordedIds(Flatten(groups)) ==>
                k in imgSrc && k in imgFiles && imgFiles[k] == LocalPath(workingDir, imgSrc[k])
    {
      ghost var src0, files0 := imgSrc, imgFiles;
      var g := 0;
      while g < |groups|
        invariant 0 <= g <= |groups|
        invariant workingDir == old(workingDir) && fulltext == old(fulltext)
        invariant imgSrc == SrcAfter(src0, Flatten(groups[..g]))
        invariant imgFiles == FilesAfter(files0, workingDir, Flatten(groups[..g]))
        invariant Valid()
      {
        SrcAfterAppend(src0, Flatten(groups[..g]), groups[g]);
        FilesAfterAppend(files0, workingDir, Flatten(groups[..g]), groups[g]);
        FlattenStep(groups, g);
        LoadGroup(groups[g]);
        g := g + 1;
      }
      assert groups[..g] == groups;
      FilesFollowSources(src0, files0, workingDir, Flatten(groups));
    }
  }
}
