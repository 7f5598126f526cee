/**
 * `generate_study_links`: walks the study collection, builds the nested
 * structure of the directories that hold listed files, and renders it under
 * the document title. The walk is an input: the sequence of
 * `(dirpath, dirnames, filenames)` triples the directory walk yields.
 */
module StudyLinks {
  import opened Wrappers
  import opened PyStr
  import opened WalkFilter
  import opened StudyTree
  import opened Render

  /** One `(dirpath, dirnames, filenames)` triple of the walk. */
  datatype WalkEntry = WalkEntry(dirpath: string, dirnames: seq<string>, filenames: seq<string>)

  /** The first element of `result`: the document title and a line break. */
  const Header: string := "# 공부 자료 목록\n"

  /** The `{"name", "path"}` records of a directory's listed files, in listing order. */
  function Records(dirpath: string, files: seq<string>): seq<FileEntry>
  {
    seq(|files|, i requires 0 <= i < |files| => FileEntry(files[i], StoredPath(dirpath, files[i])))
  }

  /** Whether a walked directory adds to the structure: it has listed files and its path is not made only of dots, slashes and backslashes. */
  predicate Contributes(e: WalkEntry, extensions: seq<string>)
  {
    RelevantFiles(e.filenames, extensions) != [] && PathParts(e.dirpath) != []
  }

  /** One iteration of the walk loop, on the structure. */
  function AddEntry(d: Dirs, e: WalkEntry, extensions: seq<string>): Dirs
  {
    var relevant := RelevantFiles(e.filenames, extensions);
    var parts := PathParts(e.dirpath);
    if relevant == [] || parts == [] then d
    else
      EnsurePathSpec(d, parts);
      assert parts <= parts;
      AddFiles(EnsurePath(d, parts), parts, Records(e.dirpath, relevant))
  }

  /** The structure after the walk loop has seen `walk`. */
  function BuildStructure(walk: seq<WalkEntry>, extensions: seq<string>): Dirs
  {
    if walk == [] then []
    else AddEntry(BuildStructure(walk[..|walk| - 1], extensions), walk[|walk| - 1], extensions)
  }

  /** The string `generate_study_links` returns. */
  function Document(walk: seq<WalkEntry>, extensions: Option<seq<string>>): string
  {
    Join([Header, Markdown(BuildStructure(walk, OrDefault(extensions, DefaultExtensions)), 2)], "\n")
  }

  /** The records a directory `q` should hold: those of the walked directories splitting into `q`, in walk order. */
  function Listed(walk: seq<WalkEntry>, extensions: seq<string>, q: seq<string>): seq<FileEntry>
  {
    if walk == [] then []
    else
      var e := walk[|walk| - 1];
      Listed(walk[..|walk| - 1], extensions, q)
      + (if Contributes(e, extensions) && PathParts(e.dirpath) == q
         then Records(e.dirpath, RelevantFiles(e.filenames, extensions)) else [])
  }

  /** The walked directory `e` has listed files and `q` is a non-empty prefix of its components. */
  predicate Reaches(e: WalkEntry, extensions: seq<string>, q: seq<string>)
  {
    Contributes(e, extensions) && q != [] && q <= PathParts(e.dirpath)
  }

  /** Some element of `s` satisfies `p`, checked from the back as the walk is folded. */
  predicate Any<T>(s: seq<T>, p: T -> bool)
  {
    s != [] && (Any(s[..|s| - 1], p) || p(s[|s| - 1]))
  }

  lemma {:induction false} AnyExists<T>(s: seq<T>, p: T -> bool)
    ensures Any(s, p) <==> exists j :: 0 <= j < |s| && p(s[j])
  {
    if s != [] {
      var init := s[..|s| - 1];
      AnyExists(init, p);
      if j :| 0 <= j < |s| && p(s[j]) {
        if j < |init| {
          assert init[j] == s[j];
        }
      }
      if j :| 0 <= j < |init| && p(init[j]) {
        assert init[j] == s[j];
      }
    }
  }

  /** Some walked directory reaches `q`. */
  predicate Reached(walk: seq<WalkEntry>, extensions: seq<string>, q: seq<string>)
  {
    Any(walk, e => Reaches(e, extensions, q))
  }

  lemma AddEntrySpec(d: Dirs, e: WalkEntry, extensions: seq<string>)
    ensures forall q :: Present(AddEntry(d, e, extensions), q) <==>
      Present(d, q) || (Contributes(e, extensions) && q != [] && q <= PathParts(e.dirpath))
    ensures forall q :: (FilesAt(AddEntry(d, e, extensions), q) == FilesAt(d, q) +
      (if Contributes(e, extensions) && PathParts(e.dirpath) == q
       then Records(e.dirpath, RelevantFiles(e.filenames, extensions)) else []))
    ensures IsDict(d) ==> IsDict(AddEntry(d, e, extensions))
  {
    var parts := PathParts(e.dirpath);
    if Contributes(e, extensions) {
      EnsurePathSpec(d, parts);
      assert parts <= parts;
      AddFilesSpec(EnsurePath(d, parts), parts, Records(e.dirpath, RelevantFiles(e.filenames, extensions)));
      if IsDict(d) { EnsurePathIsDict(d, parts); }
    }
  }

  /** `Reached` holds exactly when one of the walked directories reaches `q`. */
  lemma ReachedSome(walk: seq<WalkEntry>, extensions: seq<string>, q: seq<string>)
    ensures Reached(walk, extensions, q) <==> exists j :: 0 <= j < |walk| && Reaches(walk[j], extensions, q)
  {
    AnyExists(walk, e => Reaches(e, extensions, q));
  }

  lemma {:induction false} StructureContentsAt(walk: seq<WalkEntry>, extensions: seq<string>, q: seq<string>)
    ensures Present(BuildStructure(walk, extensions), q) <==> Reached(walk, extensions, q)
    ensures FilesAt(BuildStructure(walk, extensions), q) == Listed(walk, extensions, q)
  {
    if walk != [] {
      var init := walk[..|walk| - 1];
      StructureContentsAt(init, extensions, q);
      AddEntrySpec(BuildStructure(init, extensions), walk[|walk| - 1], extensions);
    }
  }

  lemma {:induction false} StructureIsDict(walk: seq<WalkEntry>, extensions: seq<string>)
    ensures IsDict(BuildStructure(walk, extensions))
  {
    if walk != [] {
      StructureIsDict(walk[..|walk| - 1], extensions);
      AddEntrySpec(BuildStructure(walk[..|walk| - 1], extensions), walk[|walk| - 1], extensions);
    }
  }

  /**
   * The nested structure holds exactly what grouping the walk's records by
   * directory gives: a node for every prefix of a contributing directory's
   * components and for nothing else, each node's files being the records of
   * the triples whose directory splits into its path, in walk order. Its
   * dictionaries have distinct keys at every level.
   */
  lemma StructureContents(walk: seq<WalkEntry>, extensions: seq<string>)
    ensures forall q :: (Present(BuildStructure(walk, extensions), q) <==>
      exists j :: 0 <= j < |walk| && Reaches(walk[j], extensions, q))
    ensures forall q :: FilesAt(BuildStructure(walk, extensions), q) == Listed(walk, extensions, q)
    ensures IsDict(BuildStructure(walk, extensions))
  {
    forall q ensures (Present(BuildStructure(walk, extensions), q) <==>
                        exists j :: 0 <= j < |walk| && Reaches(walk[j], extensions, q))
                 && FilesAt(BuildStructure(walk, extensions), q) == Listed(walk, extensions, q) {
      StructureContentsAt(walk, extensions, q);
      ReachedSome(walk, extensions, q);
    }
    StructureIsDict(walk, extensions);
  }

  /** The structure is empty exactly when no walked directory contributes. */
  lemma StructureEmpty(walk: seq<WalkEntry>, extensions: seq<string>)
    ensures BuildStructure(walk, extensions) == [] <==> forall j :: 0 <= j < |walk| ==> !Contributes(walk[j], extensions)
  {
    var d := BuildStructure(walk, extensions);
    if d != [] {
      var q := [d[0].name];
      assert d[0].name in Names(d);
      assert Present(d, q);
      StructureContentsAt(walk, extensions, q);
      ReachedSome(walk, extensions, q);
    }
    if j :| 0 <= j < |walk| && Contributes(walk[j], extensions) {
      var q := PathParts(walk[j].dirpath)[..1];
      assert Reaches(walk[j], extensions, q);
      ReachedSome(walk, extensions, q);
      StructureContentsAt(walk, extensions, q);
    }
  }

  /**
   * The document is the title followed by an empty rendering exactly when
   * no walked directory other than the root has a listed file.
   */
  lemma DocumentHeaderOnly(walk: seq<WalkEntry>, extensions: Option<seq<string>>)
    ensures Document(walk, extensions) == Header + "\n" <==>
      forall j :: 0 <= j < |walk| ==> !Contributes(walk[j], OrDefault(extensions, DefaultExtensions))
  {
    var exts := OrDefault(extensions, DefaultExtensions);
    var md := Markdown(BuildStructure(walk, exts), 2);
    assert Document(walk, extensions) == Join([Header, md], "\n");
    assert [Header, md][1..] == [md];
    assert Join([Header, md], "\n") == Header + "\n" + md;
    assert Document(walk, extensions) == Header + "\n" <==> |md| == 0;
    MarkdownEmpty(BuildStructure(walk, exts), 2);
    StructureEmpty(walk, exts);
  }

  /** An explicit empty extension list is used as given, not replaced by the defaults: nothing is listed. */
  lemma ExplicitNoExtensions(walk: seq<WalkEntry>)
    ensures Document(walk, Some([])) == Header + "\n"
  {
    DocumentHeaderOnly(walk, Some([]));
  }

  /** `f` is a file of the walked directory `e`, which splits into `q`, stored under its derived path. */
  predicate FileOf(e: WalkEntry, q: seq<string>, f: FileEntry)
  {
    PathParts(e.dirpath) == q && q != [] && f.name in e.filenames && f.path == StoredPath(e.dirpath, f.name)
  }

  /**
   * Every record the structure holds at `q` is a listed file (an allowed
   * extension, not `README.md`) of a walked directory that splits into `q`,
   * stored under the path derived from that directory.
   */
  lemma ListedRecords(walk: seq<WalkEntry>, extensions: seq<string>, q: seq<string>)
    ensures forall f :: f in Listed(walk, extensions, q) ==>
      IsRelevant(f.name, extensions) && f.name != "README.md" &&
      exists j :: 0 <= j < |walk| && FileOf(walk[j], q, f)
  {
    forall f | f in Listed(walk, extensions, q)
      ensures IsRelevant(f.name, extensions) && exists j :: 0 <= j < |walk| && FileOf(walk[j], q, f)
    {
      ListedRelevant(walk, extensions, q, f);
      ListedFrom(walk, extensions, q, f);
    }
  }

  lemma {:induction false} ListedRelevant(walk: seq<WalkEntry>, extensions: seq<string>, q: seq<string>, f: FileEntry)
    ensures f in Listed(walk, extensions, q) ==> IsRelevant(f.name, extensions)
  {
    if f in Listed(walk, extensions, q) {
      var init := walk[..|walk| - 1];
      var e := walk[|walk| - 1];
      if f in Listed(init, extensions, q) {
        ListedRelevant(init, extensions, q, f);
      } else {
        RecordOf(e.dirpath, RelevantFiles(e.filenames, extensions), f);
      }
    }
  }

  lemma {:induction false} ListedFrom(walk: seq<WalkEntry>, extensions: seq<string>, q: seq<string>, f: FileEntry)
    ensures f in Listed(walk, extensions, q) ==> exists j :: 0 <= j < |walk| && FileOf(walk[j], q, f)
  {
    if walk != [] {
      var init := walk[..|walk| - 1];
      var e := walk[|walk| - 1];
      if f in Listed(init, extensions, q) {
        ListedFrom(init, extensions, q, f);
        FileOfPrefix(init, walk, q, f);
      } else if f in Listed(walk, extensions, q) {
        assert Contributes(e, extensions) && PathParts(e.dirpath) == q;
        RecordOf(e.dirpath, RelevantFiles(e.filenames, extensions), f);
        assert FileOf(walk[|walk| - 1], q, f);
      }
    }
  }

  /** A file of a triple in a prefix of the walk is a file of a triple in the walk. */
  lemma FileOfPrefix(init: seq<WalkEntry>, walk: seq<WalkEntry>, q: seq<string>, f: FileEntry)
    requires init <= walk
    requires exists j :: 0 <= j < |init| && FileOf(init[j], q, f)
    ensures exists j :: 0 <= j < |walk| && FileOf(walk[j], q, f)
  {
    var j :| 0 <= j < |init| && FileOf(init[j], q, f);
    assert init[j] == walk[j];
  }

  /** A record of a directory's listed files names one of them and stores its derived path. */
  lemma RecordOf(dirpath: string, files: seq<string>, f: FileEntry)
    requires f in Records(dirpath, files)
    ensures f.name in files && f.path == StoredPath(dirpath, f.name)
  {
    var i :| 0 <= i < |files| && Records(dirpath, files)[i] == f;
  }

  /** The descent that rebinds the cursor: follows `parts` down the structure and discards the result. */
  method Descend(structure: Dirs, parts: seq<string>) returns (level: Dirs)
    requires parts == [] || Present(structure, parts)
    ensures parts == [] ==> level == structure
    ensures parts != [] ==> level == Find(structure, parts).value.dirs
  {
    level := structure;
    for k := 0 to |parts|
      invariant k == 0 ==> level == structure
      invariant k > 0 ==> Present(structure, parts[..k]) && level == Find(structure, parts[..k]).value.dirs
    {
      PresentPrefix(structure, parts, k + 1);
      if k > 0 {
        assert parts[..k + 1] == parts[..k] + [parts[k]];
        FindExtend(structure, parts[..k], parts[k]);
      }
      level := level[IndexOf(level, parts[k])].node.dirs;
    }
    assert parts[..|parts|] == parts;
  }

  /** `f` applied to every element of `s`, built from the back as the walk is folded. */
  function MapSeq<T, U>(s: seq<T>, f: T -> U): seq<U>
  {
    if s == [] then [] else MapSeq(s[..|s| - 1], f) + [f(s[|s| - 1])]
  }

  lemma {:induction false} MapSeqAt<T, U>(s: seq<T>, f: T -> U)
    ensures |MapSeq(s, f)| == |s|
    ensures forall i :: 0 <= i < |s| ==> MapSeq(s, f)[i] == f(s[i])
  {
    if s != [] {
      var init := s[..|s| - 1];
      MapSeqAt(init, f);
      assert forall i :: 0 <= i < |init| ==> init[i] == s[i];
    }
  }

  /** The pruned `dirnames` list of every triple of the walk, in walk order. */
  function PrunedLists(walk: seq<WalkEntry>, exclude: seq<string>): seq<seq<string>>
  {
    MapSeq(walk, (e: WalkEntry) => PruneDirs(e.dirnames, exclude))
  }

  lemma PrunedListsAt(walk: seq<WalkEntry>, exclude: seq<string>)
    ensures |PrunedLists(walk, exclude)| == |walk|
    ensures forall i :: 0 <= i < |walk| ==> PrunedLists(walk, exclude)[i] == PruneDirs(walk[i].dirnames, exclude)
  {
    MapSeqAt(walk, (e: WalkEntry) => PruneDirs(e.dirnames, exclude));
  }

  lemma PlaceStep(d: Dirs, path: seq<string>, records: seq<FileEntry>, j: nat)
    requires Present(d, path) && j < |records|
    ensures Present(AddFiles(d, path, records[..j]), path)
    ensures AddFiles(d, path, records[..j + 1]) == AppendAt(AddFiles(d, path, records[..j]), path, records[j])
  {
    AddFilesPresent(d, path, records[..j]);
    assert records[..j + 1][..j] == records[..j];
  }

  /** The per-file loop: appends one record per listed file at `pathParts`, in listing order. */
  method PlaceFiles(structure: Dirs, pathParts: seq<string>, dirpath: string, relevantFiles: seq<string>)
    returns (placed: Dirs)
    requires Present(structure, pathParts)
    ensures placed == AddFiles(structure, pathParts, Records(dirpath, relevantFiles))
  {
    placed := structure;
    var records := Records(dirpath, relevantFiles);
    for j := 0 to |relevantFiles|
      invariant placed == AddFiles(structure, pathParts, records[..j])
    {
      var filename := relevantFiles[j];
      var filePath := ReplaceChar(PathJoin(dirpath, filename), '\\', "/");
      if StartsWith(filePath, "./") {
        filePath := filePath[2..];
      }
      assert filePath == StoredPath(dirpath, filename);
      PlaceStep(structure, pathParts, records, j);
      var ignored := Descend(placed, pathParts);
      placed := AppendAt(placed, pathParts, FileEntry(filename, filePath));
    }
    assert records[..|relevantFiles|] == records;
  }

  /** One iteration of the walk loop: prune, select, normalise, insert, place. */
  method VisitEntry(structure: Dirs, entry: WalkEntry, exclude: seq<string>, exts: seq<string>)
    returns (next: Dirs, kept: seq<string>)
    ensures next == AddEntry(structure, entry, exts)
    ensures kept == PruneDirs(entry.dirnames, exclude)
  {
    kept := PruneDirs(entry.dirnames, exclude);
    next := structure;

    var relevantFiles := RelevantFiles(entry.filenames, exts);
    if relevantFiles == [] {
      return;
    }

    var pathParts := Split(LStrip(ReplaceChar(entry.dirpath, '\\', "/"), {'.', '/'}), '/');
    if pathParts[0] == "" {
      pathParts := pathParts[1..];
    }
    if pathParts == [] {
      return;
    }
    assert pathParts == PathParts(entry.dirpath);

    next := EnsurePath(next, pathParts);
    EnsurePathSpec(structure, pathParts);
    assert Present(next, pathParts) by { assert pathParts <= pathParts; }
    next := PlaceFiles(next, pathParts, entry.dirpath, relevantFiles);
  }

  /**
   * `generate_study_links(root_dir, exclude_dirs, extensions)` over the
   * triples of the walk. Besides the document it returns, per triple, the
   * pruned `dirnames` list it hands back to the walk.
   */
  method GenerateStudyLinks(walk: seq<WalkEntry>, excludeDirs: Option<seq<string>>, extensions: Option<seq<string>>)
    returns (doc: string, descended: seq<seq<string>>)
    ensures doc == Document(walk, extensions)
    ensures |descended| == |walk|
    ensures forall i :: 0 <= i < |walk| ==>
      descended[i] == PruneDirs(walk[i].dirnames, OrDefault(excludeDirs, DefaultExcludeDirs))
  {
    var exclude: seq<string>;
    if excludeDirs.None? {
      exclude := [".git", "node_modules", "__pycache__", ".idea"];
    } else {
      exclude := excludeDirs.value;
    }
    var exts: seq<string>;
    if extensions.None? {
      exts := [".md", ".py"];
    } else {
      exts := extensions.value;
    }

    var result := [Header];
    var structure: Dirs := [];
    descended := [];

    for i := 0 to |walk|
      invariant structure == BuildStructure(walk[..i], exts)
      invariant descended == PrunedLists(walk[..i], exclude)
    {
      assert walk[..i + 1][..i] == walk[..i];
      var kept;
      structure, kept := VisitEntry(structure, walk[i], exclude, exts);
      descended := descended + [kept];
    }
    assert walk[..|walk|] == walk;
    PrunedListsAt(walk, exclude);

    var md := BuildMarkdown(structure, 2);
    result := result + [md];
    doc := Join(result, "\n");
  }
}
