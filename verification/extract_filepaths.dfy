/** The file-path extraction task: for every granule of the input, the keys
    of its files that are not excluded by type, each with the bucket its
    name routes to. */
module ExtractFilepathsForGranule {
  import opened Results
  import opened RegexBuckets

  const InputLevel := "event['input']"
  const GranuleLevel := "event['input']['granules'][]"
  const FilesLevel := "event['input']['granules'][]['files']"

  // ---------------------------------------------------------------------
  // File names

  /** `os.path.basename` on a POSIX path: everything after the last '/'. */
  function Basename(path: string): (name: string)
    ensures '/' !in name
    ensures |name| <= |path| && name == path[|path| - |name|..]
    ensures |name| < |path| ==> path[|path| - |name| - 1] == '/'
  {
    if |path| == 0 || path[|path| - 1] == '/' then ""
    else Basename(path[..|path| - 1]) + [path[|path| - 1]]
  }

  /** The basename of a path ending in `/name` is `name`. */
  lemma {:induction false} BasenameOfJoin(dir: string, name: string)
    requires '/' !in name
    ensures Basename(dir + "/" + name) == name
    decreases |name|
  {
    var path := dir + "/" + name;
    if |name| > 0 {
      var init := name[..|name| - 1];
      assert path[..|path| - 1] == dir + "/" + init;
      assert path[|path| - 1] == name[|name| - 1] && name[|name| - 1] in name;
      BasenameOfJoin(dir, init);
      assert name == init + [name[|name| - 1]];
    }
  }

  const S3Scheme := "s3://"

  /** `re.search('^s3://', file_name)`: the name starts with the S3 scheme. */
  predicate IsS3Url(fileName: string) {
    |fileName| >= |S3Scheme| && fileName[..|S3Scheme|] == S3Scheme
  }

  /** The name used for filtering and routing: the basename of an S3 URL,
      any other file name unchanged. */
  function RoutingName(fileName: string): (name: string)
    ensures |name| <= |fileName| && name == fileName[|fileName| - |name|..]
    ensures IsS3Url(fileName) ==> '/' !in name
  {
    if IsS3Url(fileName) then Basename(fileName) else fileName
  }

  /** An S3 URL routes by its object's last path segment; any other name
      routes as it is. */
  lemma RoutingNameSpec(bucketAndPrefix: string, name: string, other: string)
    requires '/' !in name
    requires !IsS3Url(other)
    ensures RoutingName(S3Scheme + bucketAndPrefix + "/" + name) == name
    ensures RoutingName(other) == other
  {
    var url := S3Scheme + bucketAndPrefix + "/" + name;
    assert url[..|S3Scheme|] == S3Scheme;
    assert url == (S3Scheme + bucketAndPrefix) + "/" + name;
    BasenameOfJoin(S3Scheme + bucketAndPrefix, name);
  }

  // ---------------------------------------------------------------------
  // Exclusion by file type

  /** The pattern searched for an excluded type: the name must end with it. */
  function ExcludePattern(fileType: string): string {
    "^.*" + fileType + "$"
  }

  /** `should_exclude_files_type`: some excluded type's pattern is found in
      the name. An empty list excludes nothing. */
  function ShouldExcludeFilesType(name: string, excludeFileTypes: seq<string>, rx: Regex): (exclude: bool)
    ensures exclude <==> exists i :: 0 <= i < |excludeFileTypes| && rx.search(ExcludePattern(excludeFileTypes[i]), name)
    ensures excludeFileTypes == [] ==> !exclude
  {
    if |excludeFileTypes| == 0 then false
    else if rx.search(ExcludePattern(excludeFileTypes[0]), name) then true
    else
      var rest := ShouldExcludeFilesType(name, excludeFileTypes[1..], rx);
      assert rest ==> exists i :: 1 <= i < |excludeFileTypes| && rx.search(ExcludePattern(excludeFileTypes[i]), name) by {
        if rest {
          var i :| 0 <= i < |excludeFileTypes[1..]| && rx.search(ExcludePattern(excludeFileTypes[1..][i]), name);
          assert excludeFileTypes[i + 1] == excludeFileTypes[1..][i];
        }
      }
      rest
  }

  // ---------------------------------------------------------------------
  // The event

  /** A file of a granule; `other` holds the keys the task does not read. */
  datatype FileEntry = FileEntry(fileName: Option<string>, key: Option<string>, other: map<string, string>)

  /** An output key: the file's key and the bucket it routes to, if any. */
  datatype KeyEntry = KeyEntry(key: string, destBucket: Option<string>)

  /** A granule; `keys` is the field the task adds, `other` the keys it
      copies without reading. */
  datatype Granule = Granule(
    granuleId: Option<string>,
    files: Option<seq<FileEntry>>,
    keys: Option<seq<KeyEntry>>,
    other: map<string, string>)

  datatype Input = Input(granules: Option<seq<Granule>>)
  datatype Event = Event(config: Option<Config>, input: Option<Input>)
  datatype Output = Output(granules: seq<Granule>)

  /** The file loop of one granule, in file order. A file's `key` is read
      only when the file is not excluded. */
  function FileKeys(files: seq<FileEntry>, exclude: seq<string>, d: seq<Binding>, rx: Regex): (r: Result<seq<KeyEntry>, TaskError>)
    ensures r.Success? ==> |r.value| <= |files|
    ensures r.Failure? ==> r.error.ExtractFilePathsError? && r.error.level == FilesLevel
    decreases |files|
  {
    if |files| == 0 then Success([])
    else
      var f := files[0];
      if f.fileName.None? then Failure(ExtractFilePathsError(FilesLevel, "fileName"))
      else
        var name := RoutingName(f.fileName.value);
        if ShouldExcludeFilesType(name, exclude, rx) then FileKeys(files[1..], exclude, d, rx)
        else if f.key.None? then Failure(ExtractFilePathsError(FilesLevel, "key"))
        else
          match FileKeys(files[1..], exclude, d, rx)
          case Failure(e) => Failure(e)
          case Success(rest) => Success([KeyEntry(f.key.value, DestBucket(d, name, rx))] + rest)
  }

  /** The granule loop: each granule copied, with its `keys` set. */
  function ProcessGranules(gs: seq<Granule>, exclude: seq<string>, d: seq<Binding>, rx: Regex): (r: Result<seq<Granule>, TaskError>)
    ensures r.Success? ==> |r.value| == |gs| && forall i :: 0 <= i < |gs| ==> r.value[i].granuleId == gs[i].granuleId
    ensures r.Failure? ==> r.error.ExtractFilePathsError? && r.error.level in {GranuleLevel, FilesLevel}
    decreases |gs|
  {
    if |gs| == 0 then Success([])
    else
      var g := gs[0];
      if g.granuleId.None? then Failure(ExtractFilePathsError(GranuleLevel, "granuleId"))
      else if g.files.None? then Failure(ExtractFilePathsError(GranuleLevel, "files"))
      else
        match FileKeys(g.files.value, exclude, d, rx)
        case Failure(e) => Failure(e)
        case Success(keys) =>
          match ProcessGranules(gs[1..], exclude, d, rx)
          case Failure(e) => Failure(e)
          case Success(rest) => Success([g.(keys := Some(keys))] + rest)
  }

  /** `task`: the configuration is read first, then the routing table, then
      the granules. Any failure returns no output at all. */
  function Task(event: Event, rx: Regex): (r: Result<Output, TaskError>)
    ensures r.Success? ==>
      && event.config.Some? && event.input.Some? && event.input.value.granules.Some?
      && |r.value.granules| == |event.input.value.granules.value|
  {
    if event.config.None? then Failure(UnboundConfig)
    else
      var config := event.config.value;
      match GetRegexBuckets(config)
      case Failure(e) => Failure(e)
      case Success(d) =>
        if event.input.None? then Failure(ExtractFilePathsError(InputLevel, "input"))
        else if event.input.value.granules.None? then Failure(ExtractFilePathsError(InputLevel, "granules"))
        else
          match ProcessGranules(event.input.value.granules.value, ExcludeFileTypes(config), d, rx)
          case Failure(e) => Failure(e)
          case Success(gs) => Success(Output(gs))
  }

  // ---------------------------------------------------------------------
  // Reference definitions

  /** A file is kept: it has a name that no excluded type matches. */
  predicate Kept(f: FileEntry, exclude: seq<string>, rx: Regex) {
    f.fileName.Some? && !ShouldExcludeFilesType(RoutingName(f.fileName.value), exclude, rx)
  }

  /** The files that are kept, in input order. */
  function KeptFiles(files: seq<FileEntry>, exclude: seq<string>, rx: Regex): (kept: seq<FileEntry>)
    ensures |kept| <= |files|
    ensures forall f :: f in kept <==> f in files && Kept(f, exclude, rx)
    ensures forall i :: 0 <= i < |kept| ==> Kept(kept[i], exclude, rx)
  {
    if |files| == 0 then []
    else
      var f := files[0];
      if Kept(f, exclude, rx) then [f] + KeptFiles(files[1..], exclude, rx)
      else KeptFiles(files[1..], exclude, rx)
  }

  /** Keeping distributes over concatenation: each file is kept or dropped
      on its own, so kept files keep their input order and multiplicity. */
  lemma {:induction false} KeptFilesAppend(a: seq<FileEntry>, b: seq<FileEntry>, exclude: seq<string>, rx: Regex)
    ensures KeptFiles(a + b, exclude, rx) == KeptFiles(a, exclude, rx) + KeptFiles(b, exclude, rx)
    decreases |a|
  {
    if |a| > 0 {
      assert (a + b)[1..] == a[1..] + b;
      KeptFilesAppend(a[1..], b, exclude, rx);
    } else {
      assert a + b == b;
    }
  }

  /** A single file is kept exactly when it qualifies. */
  lemma KeptFilesSingle(f: FileEntry, exclude: seq<string>, rx: Regex)
    ensures KeptFiles([f], exclude, rx) == if Kept(f, exclude, rx) then [f] else []
  {
    assert [f][1..] == [];
  }

  /** A file has everything the task reads: a name, and a key unless excluded. */
  predicate FileWellFormed(f: FileEntry, exclude: seq<string>, rx: Regex) {
    f.fileName.Some? && (f.key.Some? || ShouldExcludeFilesType(RoutingName(f.fileName.value), exclude, rx))
  }

  predicate GranuleWellFormed(g: Granule, exclude: seq<string>, rx: Regex) {
    && g.granuleId.Some?
    && g.files.Some?
    && forall j :: 0 <= j < |g.files.value| ==> FileWellFormed(g.files.value[j], exclude, rx)
  }

  /** Everything the task reads is present. */
  predicate EventWellFormed(event: Event, rx: Regex) {
    && event.config.Some?
    && ConfigWellFormed(event.config.value)
    && event.input.Some?
    && event.input.value.granules.Some?
    && forall i :: 0 <= i < |event.input.value.granules.value| ==>
         GranuleWellFormed(event.input.value.granules.value[i], ExcludeFileTypes(event.config.value), rx)
  }

  // ---------------------------------------------------------------------
  // Properties

  /** All files of `files[1..]` are well formed when all of `files` are. */
  lemma TailWellFormed(files: seq<FileEntry>, exclude: seq<string>, rx: Regex)
    requires |files| > 0
    requires forall j :: 0 <= j < |files| ==> FileWellFormed(files[j], exclude, rx)
    ensures forall j :: 0 <= j < |files[1..]| ==> FileWellFormed(files[1..][j], exclude, rx)
  {
    forall j | 0 <= j < |files[1..]|
      ensures FileWellFormed(files[1..][j], exclude, rx)
    {
      assert files[1..][j] == files[j + 1];
    }
  }

  /** The file loop succeeds exactly when every file is well formed, and
      otherwise fails on a missing `fileName` or `key`. */
  lemma {:induction false} FileKeysSucceedsIff(files: seq<FileEntry>, exclude: seq<string>, d: seq<Binding>, rx: Regex)
    ensures FileKeys(files, exclude, d, rx).Success?
        <==> forall j :: 0 <= j < |files| ==> FileWellFormed(files[j], exclude, rx)
    ensures FileKeys(files, exclude, d, rx).Failure? ==>
      FileKeys(files, exclude, d, rx).error == ExtractFilePathsError(FilesLevel, "fileName")
      || FileKeys(files, exclude, d, rx).error == ExtractFilePathsError(FilesLevel, "key")
    decreases |files|
  {
    if |files| > 0 {
      FileKeysSucceedsIff(files[1..], exclude, d, rx);
      if !FileWellFormed(files[0], exclude, rx) {
        assert FileKeys(files, exclude, d, rx).Failure?;
      } else if (forall j :: 0 <= j < |files| ==> FileWellFormed(files[j], exclude, rx)) {
        TailWellFormed(files, exclude, rx);
      } else {
        var j :| 0 <= j < |files| && !FileWellFormed(files[j], exclude, rx);
        assert files[1..][j - 1] == files[j];
      }
    }
  }

  /** A successful file loop yields one key entry per kept file, in input
      order, each routed by its file's name; excluded files contribute
      nothing. */
  lemma {:induction false} FileKeysOutput(files: seq<FileEntry>, exclude: seq<string>, d: seq<Binding>, rx: Regex)
    requires FileKeys(files, exclude, d, rx).Success?
    ensures
      var keys := FileKeys(files, exclude, d, rx).value;
      var kept := KeptFiles(files, exclude, rx);
      && |keys| == |kept|
      && forall i :: 0 <= i < |kept| ==>
           kept[i].key == Some(keys[i].key)
           && keys[i].destBucket == DestBucket(d, RoutingName(kept[i].fileName.value), rx)
    decreases |files|
  {
    if |files| > 0 {
      FileKeysOutput(files[1..], exclude, d, rx);
      var f := files[0];
      if Kept(f, exclude, rx) {
        var keys := FileKeys(files, exclude, d, rx).value;
        var rest := FileKeys(files[1..], exclude, d, rx).value;
        var kept := KeptFiles(files, exclude, rx);
        var keptRest := KeptFiles(files[1..], exclude, rx);
        assert keys == [KeyEntry(f.key.value, DestBucket(d, RoutingName(f.fileName.value), rx))] + rest;
        assert kept == [f] + keptRest;
        forall i | 0 <= i < |kept|
          ensures kept[i].key == Some(keys[i].key)
          ensures keys[i].destBucket == DestBucket(d, RoutingName(kept[i].fileName.value), rx)
        {
          if i > 0 {
            assert kept[i] == keptRest[i - 1] && keys[i] == rest[i - 1];
          }
        }
      }
    }
  }

  /** The file loop, both ways: see `FileKeysSucceedsIff` and `FileKeysOutput`. */
  lemma FileKeysSpec(files: seq<FileEntry>, exclude: seq<string>, d: seq<Binding>, rx: Regex)
    ensures FileKeys(files, exclude, d, rx).Success?
        <==> forall j :: 0 <= j < |files| ==> FileWellFormed(files[j], exclude, rx)
    ensures FileKeys(files, exclude, d, rx).Success? ==>
      var keys := FileKeys(files, exclude, d, rx).value;
      var kept := KeptFiles(files, exclude, rx);
      && |keys| == |kept|
      && forall i :: 0 <= i < |kept| ==>
           kept[i].key == Some(keys[i].key)
           && keys[i].destBucket == DestBucket(d, RoutingName(kept[i].fileName.value), rx)
    ensures FileKeys(files, exclude, d, rx).Failure? ==>
      FileKeys(files, exclude, d, rx).error == ExtractFilePathsError(FilesLevel, "fileName")
      || FileKeys(files, exclude, d, rx).error == ExtractFilePathsError(FilesLevel, "key")
  {
    FileKeysSucceedsIff(files, exclude, d, rx);
    if FileKeys(files, exclude, d, rx).Success? {
      FileKeysOutput(files, exclude, d, rx);
    }
  }

  /** The granule loop succeeds exactly when every granule is well formed, and
      then yields one granule per input granule, in the same order: the input
      granule with its `keys` set and every other field kept. */
  lemma {:induction false} ProcessGranulesSpec(gs: seq<Granule>, exclude: seq<string>, d: seq<Binding>, rx: Regex)
    ensures ProcessGranules(gs, exclude, d, rx).Success?
        <==> forall i :: 0 <= i < |gs| ==> GranuleWellFormed(gs[i], exclude, rx)
    ensures ProcessGranules(gs, exclude, d, rx).Success? ==>
      var out := ProcessGranules(gs, exclude, d, rx).value;
      && |out| == |gs|
      && forall i :: 0 <= i < |gs| ==>
           && out[i].keys.Some?
           && out[i] == gs[i].(keys := out[i].keys)
           && out[i].granuleId == gs[i].granuleId
           && Success(out[i].keys.value) == FileKeys(gs[i].files.value, exclude, d, rx)
    decreases |gs|
  {
    if |gs| > 0 {
      ProcessGranulesSpec(gs[1..], exclude, d, rx);
      if gs[0].files.Some? {
        FileKeysSpec(gs[0].files.value, exclude, d, rx);
      }
      if (forall i :: 0 <= i < |gs| ==> GranuleWellFormed(gs[i], exclude, rx)) {
        assert forall i :: 0 <= i < |gs[1..]| ==> GranuleWellFormed(gs[1..][i], exclude, rx) by {
          forall i | 0 <= i < |gs[1..]|
            ensures GranuleWellFormed(gs[1..][i], exclude, rx)
          {
            assert gs[1..][i] == gs[i + 1];
          }
        }
      } else if GranuleWellFormed(gs[0], exclude, rx) {
        var i :| 0 <= i < |gs| && !GranuleWellFormed(gs[i], exclude, rx);
        assert gs[1..][i - 1] == gs[i];
      }
    }
  }

  /** The task succeeds exactly when the event holds everything it reads. It
      then returns one granule per input granule, in input order, each the
      input granule with only `keys` changed: one entry per kept file, in
      file order, carrying the file's key and the bucket its name routes to. */
  lemma TaskSpec(event: Event, rx: Regex)
    ensures Task(event, rx).Success? <==> EventWellFormed(event, rx)
    ensures Task(event, rx).Success? ==>
      var config := event.config.value;
      var exclude := ExcludeFileTypes(config);
      var d := GetRegexBuckets(config).value;
      var gs := event.input.value.granules.value;
      var out := Task(event, rx).value.granules;
      && |out| == |gs|
      && forall i :: 0 <= i < |gs| ==>
           && out[i].keys.Some?
           && out[i] == gs[i].(keys := out[i].keys)
           && var keys := out[i].keys.value;
              var kept := KeptFiles(gs[i].files.value, exclude, rx);
              && |keys| == |kept|
              && forall j :: 0 <= j < |kept| ==>
                   && kept[j].key == Some(keys[j].key)
                   && keys[j].destBucket == DestBucket(d, RoutingName(kept[j].fileName.value), rx)
  {
    if event.config.Some? {
      var config := event.config.value;
      GetRegexBucketsSpec(config);
      if ConfigWellFormed(config) && event.input.Some? && event.input.value.granules.Some? {
        var gs := event.input.value.granules.value;
        var exclude := ExcludeFileTypes(config);
        var d := GetRegexBuckets(config).value;
        ProcessGranulesSpec(gs, exclude, d, rx);
        forall i | 0 <= i < |gs| && gs[i].files.Some?
          ensures FileKeys(gs[i].files.value, exclude, d, rx).Success? ==>
            var keys := FileKeys(gs[i].files.value, exclude, d, rx).value;
            var kept := KeptFiles(gs[i].files.value, exclude, rx);
            && |keys| == |kept|
            && forall j :: 0 <= j < |kept| ==>
                 && kept[j].key == Some(keys[j].key)
                 && keys[j].destBucket == DestBucket(d, RoutingName(kept[j].fileName.value), rx)
        {
          FileKeysSpec(gs[i].files.value, exclude, d, rx);
        }
      }
    }
  }

  /** A failed task reports either the missing configuration or the level of
      the event it was reading: the configuration, the input, a granule, or
      a granule's files. */
  lemma TaskErrorLevels(event: Event, rx: Regex)
    requires Task(event, rx).Failure?
    ensures event.config.None? <==> Task(event, rx).error == UnboundConfig
    ensures event.config.Some? ==>
      && Task(event, rx).error.ExtractFilePathsError?
      && Task(event, rx).error.level in {ConfigLevel, InputLevel, GranuleLevel, FilesLevel}
  {
    if event.config.Some? {
      var config := event.config.value;
      GetRegexBucketsSpec(config);
      if GetRegexBuckets(config).Success? && event.input.Some? && event.input.value.granules.Some? {
        ProcessGranulesErrorLevels(event.input.value.granules.value, ExcludeFileTypes(config), GetRegexBuckets(config).value, rx);
      }
    }
  }

  lemma {:induction false} ProcessGranulesErrorLevels(gs: seq<Granule>, exclude: seq<string>, d: seq<Binding>, rx: Regex)
    requires ProcessGranules(gs, exclude, d, rx).Failure?
    ensures ProcessGranules(gs, exclude, d, rx).error.ExtractFilePathsError?
    ensures ProcessGranules(gs, exclude, d, rx).error.level in {GranuleLevel, FilesLevel}
    decreases |gs|
  {
    var g := gs[0];
    if g.granuleId.Some? && g.files.Some? {
      FileKeysSpec(g.files.value, exclude, d, rx);
      if FileKeys(g.files.value, exclude, d, rx).Success? {
        ProcessGranulesErrorLevels(gs[1..], exclude, d, rx);
      }
    }
  }
}
