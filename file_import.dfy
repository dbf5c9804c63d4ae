/** The asset half of the import (`importer::importfiles`): each staged file of a
    category is matched against the stored files of that category by path and name, then
    compared by content hash. The file store is a map from (item id = category id, path,
    name) to the stored content hash and the metadata columns the importer sets. */
module FileImport {
  import opened Php
  import opened Descriptor
  import opened Results

  datatype FileKey = FileKey(itemid: int, filepath: string, filename: string)

  /** A stored file: its content hash and the `source`/`author`/`license` columns given
      when it was created (empty when no metadata entry matched). */
  datatype StoredFile = StoredFile(contenthash: string, meta: map<string, string>)

  type Files = map<FileKey, StoredFile>

  /** A file unpacked from the bundle into the draft area. */
  datatype StagedFile = StagedFile(
    isDirectory: bool,
    mimetype: string,
    filepath: string,
    filename: string,
    contenthash: string)

  /** What one `importfiles` call works with; `accepts` says whether the file store lets a
      new file be created at a key (`create_file_from_storedfile` returning a file). */
  datatype FileBatch = FileBatch(
    categoryid: int,
    metadata: Metadata,
    categoryname: string,
    dryrun: bool,
    consts: Constants,
    accepts: FileKey -> bool)

  /** Directories, the descriptor and the category metadata documents are not assets. */
  predicate Skipped(f: StagedFile, c: Constants)
    ensures f.isDirectory || (f.mimetype == "application/xml" && f.filename == c.exportFileName) ==> Skipped(f, c)
    ensures Skipped(f, c) && !f.isDirectory ==> f.mimetype == "application/xml"
  {
    f.isDirectory ||
    (f.mimetype == "application/xml" &&
      (f.filename == c.exportFileName || StartsWith(f.filename, c.metadataFilePrefix)))
  }

  /** The destination path: every `/<categoryname>` is cut out of the staged path (kept as
      is when the category name is falsy). */
  function DestPath(f: StagedFile, categoryname: string): (r: string)
    ensures Empty(categoryname) ==> r == f.filepath
    ensures |r| <= |f.filepath|
    ensures (forall i: nat :: !OccursAt(f.filepath, "/" + categoryname, i)) ==> r == f.filepath
  {
    if Empty(categoryname) then f.filepath
    else
      assert (forall i: nat :: !OccursAt(f.filepath, "/" + categoryname, i)) ==> RemoveAll("/" + categoryname, f.filepath) == f.filepath by {
        if forall i: nat :: !OccursAt(f.filepath, "/" + categoryname, i) {
          RemoveAllAbsent("/" + categoryname, f.filepath);
        }
      }
      RemoveAll("/" + categoryname, f.filepath)
  }

  /** A file staged under `/<categoryname>` lands at the rest of its path. */
  lemma DestPathStripsCategory(f: StagedFile, categoryname: string, rest: string)
    requires !Empty(categoryname)
    requires f.filepath == "/" + categoryname + rest
    requires forall i: nat :: !OccursAt(rest, "/" + categoryname, i)
    ensures DestPath(f, categoryname) == rest
  {
    RemoveAllLeading("/" + categoryname, rest);
  }

  function Dest(f: StagedFile, b: FileBatch): FileKey
  {
    FileKey(b.categoryid, DestPath(f, b.categoryname), f.filename)
  }

  /** Position of the first metadata entry whose `filename` is `filename`, or `|entries|`. */
  function FirstMetaIndex(entries: seq<FileMetadata>, filename: string): (i: nat)
    ensures i <= |entries|
    ensures i < |entries| ==> Get(entries[i], "filename") == filename
    ensures forall j :: 0 <= j < i ==> Get(entries[j], "filename") != filename
  {
    if |entries| == 0 then 0
    else if Get(entries[0], "filename") == filename then 0
    else 1 + FirstMetaIndex(entries[1..], filename)
  }

  /** The metadata a newly created file receives: the `source`, `author` and `license` of
      the first entry of `$metadata[$categoryname]` whose filename matches, or none. */
  function MetadataFor(metadata: Metadata, categoryname: string, filename: string): (m: map<string, string>)
    ensures m == map[] || m.Keys == {"source", "author", "license"}
    ensures |metadata| == 0 ==> m == map[]
  {
    if |metadata| == 0 then map[]
    else if categoryname !in metadata then map[]  // PHP warns on the missing key; foreach over null does nothing
    else
      var entries := metadata[categoryname];
      var i := FirstMetaIndex(entries, filename);
      if i < |entries| then
        var m := map["source" := Get(entries[i], "source"), "author" := Get(entries[i], "author"),
                     "license" := Get(entries[i], "license")];
        assert "source" in m;
        m
      else map[]
  }

  /** What a created file receives: nothing exactly when no entry of the category names
      it, otherwise the columns of the first entry that does. */
  lemma MetadataForMeaning(metadata: Metadata, categoryname: string, filename: string)
    ensures var m := MetadataFor(metadata, categoryname, filename);
      && (m == map[] <==>
          categoryname !in metadata ||
          forall j :: 0 <= j < |metadata[categoryname]| ==> Get(metadata[categoryname][j], "filename") != filename)
      && (m != map[] ==> exists j :: (0 <= j < |metadata[categoryname]|
          && Get(metadata[categoryname][j], "filename") == filename
          && (forall k :: 0 <= k < j ==> Get(metadata[categoryname][k], "filename") != filename)
          && m == map["source" := Get(metadata[categoryname][j], "source"),
                      "author" := Get(metadata[categoryname][j], "author"),
                      "license" := Get(metadata[categoryname][j], "license")]))
  {
    if categoryname in metadata {
      var entries := metadata[categoryname];
      var i := FirstMetaIndex(entries, filename);
      if i < |entries| {
        assert "source" in MetadataFor(metadata, categoryname, filename);
      }
    }
  }

  datatype FileStep = Skip | Refused(error: ImportError) | Step(files: Files, result: ImportResult)

  /** One iteration of the `importfiles` loop: skipped, refused (only a new file outside a
      dry run), or logged as new, replaced or unchanged; the store changes at the
      destination only, and not in a dry run or for an unchanged file. A created file gets
      the metadata of the first entry naming it; a replaced file takes the new content and
      keeps its metadata. */
  function StepOf(files: Files, f: StagedFile, b: FileBatch): (r: FileStep)
    ensures r.Skip? <==> Skipped(f, b.consts)
    ensures r.Refused? <==> !Skipped(f, b.consts) && Dest(f, b) !in files && !b.dryrun && !b.accepts(Dest(f, b))
    ensures r.Step? ==>
        var key := Dest(f, b);
        && r.result.subject == key.filepath + f.filename
        && (r.result.code == NewFile <==> key !in files)
        && (r.result.code == ReplaceFile <==> key in files && files[key].contenthash != f.contenthash)
        && (r.result.code == UnchangedFile <==> key in files && files[key].contenthash == f.contenthash)
        && (b.dryrun || r.result.code == UnchangedFile ==> r.files == files)
        && (!b.dryrun ==> key in r.files && r.files[key].contenthash == f.contenthash)
        && (!b.dryrun && r.result.code == NewFile ==>
              r.files[key].meta == MetadataFor(b.metadata, b.categoryname, f.filename))
        && (r.result.code != NewFile ==> key in r.files && r.files[key].meta == files[key].meta)
        && (forall k :: k != key ==> (k in r.files <==> k in files) && (k in files ==> r.files[k] == files[k]))
  {
    if Skipped(f, b.consts) then Skip
    else
      var key := Dest(f, b);
      var shown := key.filepath + f.filename;
      if key in files then
        if files[key].contenthash != f.contenthash then
          var replaced := if b.dryrun then files else files[key := files[key].(contenthash := f.contenthash)];
          Step(replaced, ImportResult(ReplaceFile, shown))
        else
          Step(files, ImportResult(UnchangedFile, shown))
      else if b.dryrun then
        Step(files, ImportResult(NewFile, shown))
      else if !b.accepts(key) then
        Refused(FileImport(shown))
      else
        var created := StoredFile(f.contenthash, MetadataFor(b.metadata, b.categoryname, f.filename));
        Step(files[key := created], ImportResult(NewFile, shown))
  }

  datatype Run = Run(files: Files, events: seq<ImportResult>, status: Status)

  /** The whole `importfiles` loop: the final file store, the results it logs in order, and
      whether it stopped on a refused file. */
  function FilesRun(files: Files, staged: seq<StagedFile>, b: FileBatch): (r: Run)
    ensures |r.events| <= |staged|
    ensures r.status.Failed? ==> r.status.error.FileImport?
    decreases |staged|
  {
    if |staged| == 0 then Run(files, [], Done)
    else match StepOf(files, staged[0], b)
      case Skip => FilesRun(files, staged[1..], b)
      case Refused(e) => Run(files, [], Failed(e))
      case Step(next, ev) =>
        var rest := FilesRun(next, staged[1..], b);
        Run(rest.files, [ev] + rest.events, rest.status)
  }

  /** A dry run never writes a file and never fails. */
  lemma {:induction false} DryRunWritesNoFiles(files: Files, staged: seq<StagedFile>, b: FileBatch)
    requires b.dryrun
    ensures FilesRun(files, staged, b).files == files
    ensures FilesRun(files, staged, b).status == Done
    decreases |staged|
  {
    if |staged| > 0 {
      DryRunWritesNoFiles(files, staged[1..], b);
    }
  }

  /** Every staged asset has its own destination. */
  predicate DistinctDestinations(staged: seq<StagedFile>, b: FileBatch)
  {
    forall i, j :: 0 <= i < j < |staged| && !Skipped(staged[i], b.consts) && !Skipped(staged[j], b.consts)
      ==> Dest(staged[i], b) != Dest(staged[j], b)
  }

  /** Two file stores that agree on whether a key is taken and on its content hash. */
  predicate AgreeOn(a: Files, c: Files, k: FileKey)
  {
    (k in a <==> k in c) && (k in a ==> a[k].contenthash == c[k].contenthash)
  }

  lemma {:induction false} PreviewMatches(dry: Files, live: Files, staged: seq<StagedFile>, b: FileBatch)
    requires DistinctDestinations(staged, b)
    requires forall i :: 0 <= i < |staged| && !Skipped(staged[i], b.consts) ==>
      AgreeOn(dry, live, Dest(staged[i], b)) && b.accepts(Dest(staged[i], b))
    ensures FilesRun(dry, staged, b.(dryrun := true)).events == FilesRun(live, staged, b.(dryrun := false)).events
    ensures FilesRun(live, staged, b.(dryrun := false)).status == Done
    decreases |staged|
  {
    if |staged| > 0 {
      var bd, br := b.(dryrun := true), b.(dryrun := false);
      var f := staged[0];
      var tail := staged[1..];
      assert DistinctDestinations(tail, b) by {
        forall i, j | 0 <= i < j < |tail| && !Skipped(tail[i], b.consts) && !Skipped(tail[j], b.consts)
          ensures Dest(tail[i], b) != Dest(tail[j], b)
        {
          assert tail[i] == staged[i + 1] && tail[j] == staged[j + 1];
        }
      }
      if Skipped(f, b.consts) {
        forall i | 0 <= i < |tail| && !Skipped(tail[i], b.consts)
          ensures AgreeOn(dry, live, Dest(tail[i], b)) && b.accepts(Dest(tail[i], b))
        {
          assert tail[i] == staged[i + 1];
        }
        PreviewMatches(dry, live, tail, b);
      } else {
        var key := Dest(f, b);
        assert Dest(f, bd) == key && Dest(f, br) == key;
        var sd, sr := StepOf(dry, f, bd), StepOf(live, f, br);
        assert AgreeOn(dry, live, key) && b.accepts(key);
        assert sd.Step? && sr.Step? && sd.result == sr.result;
        forall i | 0 <= i < |tail| && !Skipped(tail[i], b.consts)
          ensures AgreeOn(sd.files, sr.files, Dest(tail[i], b)) && b.accepts(Dest(tail[i], b))
        {
          assert tail[i] == staged[i + 1];
          assert Dest(tail[i], b) != key;
          assert Dest(tail[i], bd) == Dest(tail[i], b) && Dest(tail[i], br) == Dest(tail[i], b);
        }
        PreviewMatches(sd.files, sr.files, tail, b);
      }
    }
  }

  /** A dry run logs exactly what a live run from the same store would log, as long as no
      two staged assets land on the same destination and the store accepts every new file. */
  lemma DryRunPreviewsRealRun(files: Files, staged: seq<StagedFile>, b: FileBatch)
    requires DistinctDestinations(staged, b)
    requires forall i :: 0 <= i < |staged| && !Skipped(staged[i], b.consts) ==> b.accepts(Dest(staged[i], b))
    ensures FilesRun(files, staged, b.(dryrun := true)).events == FilesRun(files, staged, b.(dryrun := false)).events
    ensures FilesRun(files, staged, b.(dryrun := false)).status == Done
  {
    PreviewMatches(files, files, staged, b);
  }

  /** The `importfiles` loop's invariant after `i` staged files: what was logged so far,
      followed by what the remaining files will do to `files`, is the whole run `target`. */
  ghost predicate FilesLoop(target: Run, files: Files, staged: seq<StagedFile>, i: nat, b: FileBatch, logged: seq<ImportResult>)
  {
    i <= |staged| &&
    var rest := FilesRun(files, staged[i..], b);
    target == Run(rest.files, logged + rest.events, rest.status)
  }

  /** Before the first file, the invariant is the definition of the run. */
  lemma FilesLoopStart(files: Files, staged: seq<StagedFile>, b: FileBatch)
    ensures FilesLoop(FilesRun(files, staged, b), files, staged, 0, b, [])
  {
    assert staged[0..] == staged;
  }

  /** The invariant carried over one file: a refused file ends the run with what was
      logged so far. */
  lemma FilesLoopNext(target: Run, files: Files, staged: seq<StagedFile>, i: nat, b: FileBatch, logged: seq<ImportResult>)
    requires i < |staged| && FilesLoop(target, files, staged, i, b, logged)
    ensures match StepOf(files, staged[i], b)
      case Skip => FilesLoop(target, files, staged, i + 1, b, logged)
      case Refused(e) => target == Run(files, logged, Failed(e))
      case Step(next, ev) => FilesLoop(target, next, staged, i + 1, b, logged + [ev])
  {
    assert staged[i..][0] == staged[i] && staged[i..][1..] == staged[i + 1..];
    match StepOf(files, staged[i], b)
    case Skip =>
    case Refused(e) =>
      assert logged + [] == logged;
    case Step(next, ev) =>
      var rest := FilesRun(next, staged[i + 1..], b);
      assert logged + ([ev] + rest.events) == (logged + [ev]) + rest.events;
  }

  /** After the last file, the run is what was logged. */
  lemma FilesLoopEnd(target: Run, files: Files, staged: seq<StagedFile>, b: FileBatch, logged: seq<ImportResult>)
    requires FilesLoop(target, files, staged, |staged|, b, logged)
    ensures target == Run(files, logged, Done)
  {
    assert staged[|staged|..] == [] && logged + [] == logged;
  }

  // ----- the bundle -----

  /** The unpacked bundle, as `import` finds it in the draft area: whether a bundle was
      given at all, the descriptor files at its root (parsed; None when not well-formed),
      the files under each category's directory, and each category's metadata file. */
  datatype Bundle = Bundle(
    found: bool,
    descriptors: map<string, Option<Document>>,
    categoryFiles: string -> seq<StagedFile>,
    metadataFiles: string -> MetaSource)

  /** The descriptor name of bundles from before the plugin was renamed. */
  const LegacyExportFileName: string := "tiny_c4l_export.xml"

  /** The descriptor `import` reads: the current name first, then the legacy name; None
      when the bundle has neither. */
  function DescriptorOf(bundle: Bundle, c: Constants): (r: Option<Option<Document>>)
    ensures r.None? <==> c.exportFileName !in bundle.descriptors && LegacyExportFileName !in bundle.descriptors
    ensures c.exportFileName in bundle.descriptors ==> r == Some(bundle.descriptors[c.exportFileName])
  {
    if c.exportFileName in bundle.descriptors then Some(bundle.descriptors[c.exportFileName])
    else if LegacyExportFileName in bundle.descriptors then Some(bundle.descriptors[LegacyExportFileName])
    else None
  }

  /** The staged files under the category's directory of the bundle. */
  function StagedUnder(bundle: Bundle, categoryname: string): seq<StagedFile>
  {
    bundle.categoryFiles(categoryname)
  }

  /** The category's metadata file in the bundle. */
  function MetadataFileOf(bundle: Bundle, categoryname: string): MetaSource
  {
    bundle.metadataFiles(categoryname)
  }

  /** What `import` hands to `importfiles` for the category (id, name). */
  function CategoryBatch(bundle: Bundle, cat: (int, string), dryrun: bool, c: Constants, accepts: FileKey -> bool): FileBatch
  {
    FileBatch(cat.0, MetadataOf(MetadataFileOf(bundle, cat.1)), cat.1, dryrun, c, accepts)
  }

  /** The `importfiles` run of one category. */
  function CategoryRun(files: Files, bundle: Bundle, cat: (int, string), dryrun: bool, c: Constants, accepts: FileKey -> bool): (r: Run)
    ensures |r.events| <= |StagedUnder(bundle, cat.1)|
    ensures r.status.Failed? ==> r.status.error.FileImport?
  {
    FilesRun(files, StagedUnder(bundle, cat.1), CategoryBatch(bundle, cat, dryrun, c, accepts))
  }

  /** The file loop of `import` from the `i`-th selected category on: the files of each
      category, in turn, until one is refused. */
  function BundleFilesRun(files: Files, cats: seq<(int, string)>, i: nat, bundle: Bundle, dryrun: bool, c: Constants,
                          accepts: FileKey -> bool): (r: Run)
    requires i <= |cats|
    ensures r.status.Failed? ==> r.status.error.FileImport?
    decreases |cats| - i
  {
    if i == |cats| then Run(files, [], Done)
    else
      var run := CategoryRun(files, bundle, cats[i], dryrun, c, accepts);
      if run.status.Failed? then run
      else
        var rest := BundleFilesRun(run.files, cats, i + 1, bundle, dryrun, c, accepts);
        Run(rest.files, run.events + rest.events, rest.status)
  }

  /** The category loop's invariant after `i` categories: what was logged so far, followed
      by what the remaining categories will do to `files`, is the whole run `target`. */
  ghost predicate BundleLoop(target: Run, files: Files, cats: seq<(int, string)>, i: nat, bundle: Bundle, dryrun: bool,
                             c: Constants, accepts: FileKey -> bool, logged: seq<ImportResult>)
  {
    i <= |cats| &&
    var rest := BundleFilesRun(files, cats, i, bundle, dryrun, c, accepts);
    target == Run(rest.files, logged + rest.events, rest.status)
  }

  /** The invariant carried over one category: a refused file ends the run with what was
      logged so far plus this category's results. */
  lemma BundleLoopNext(target: Run, files: Files, cats: seq<(int, string)>, i: nat, bundle: Bundle, dryrun: bool,
                       c: Constants, accepts: FileKey -> bool, logged: seq<ImportResult>, run: Run)
    requires i < |cats| && BundleLoop(target, files, cats, i, bundle, dryrun, c, accepts, logged)
    requires run == CategoryRun(files, bundle, cats[i], dryrun, c, accepts)
    ensures run.status.Failed? ==> target == Run(run.files, logged + run.events, run.status)
    ensures !run.status.Failed? ==> BundleLoop(target, run.files, cats, i + 1, bundle, dryrun, c, accepts, logged + run.events)
  {
    if run.status.Failed? {
      assert logged + run.events + [] == logged + run.events;
    } else {
      var rest := BundleFilesRun(run.files, cats, i + 1, bundle, dryrun, c, accepts);
      assert logged + (run.events + rest.events) == (logged + run.events) + rest.events;
    }
  }

  /** After the last category, the run is what was logged. */
  lemma BundleLoopEnd(target: Run, files: Files, cats: seq<(int, string)>, bundle: Bundle, dryrun: bool,
                      c: Constants, accepts: FileKey -> bool, logged: seq<ImportResult>)
    requires BundleLoop(target, files, cats, |cats|, bundle, dryrun, c, accepts, logged)
    ensures target == Run(files, logged, Done)
  {
    assert logged + [] == logged;
  }

  /** A dry run of the whole file import leaves the file store as it was and never fails. */
  lemma {:induction false} DryRunBundleWritesNoFiles(files: Files, cats: seq<(int, string)>, i: nat, bundle: Bundle, c: Constants,
                                                     accepts: FileKey -> bool)
    requires i <= |cats|
    ensures BundleFilesRun(files, cats, i, bundle, true, c, accepts).files == files
    ensures BundleFilesRun(files, cats, i, bundle, true, c, accepts).status == Done
    decreases |cats| - i
  {
    if i < |cats| {
      var b := CategoryBatch(bundle, cats[i], true, c, accepts);
      DryRunWritesNoFiles(files, StagedUnder(bundle, cats[i].1), b);
      DryRunBundleWritesNoFiles(files, cats, i + 1, bundle, c, accepts);
    }
  }

}
