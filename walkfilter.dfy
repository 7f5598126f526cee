/**
 * What the generator does with one `(dirpath, dirnames, filenames)` triple of
 * the directory walk before touching the tree: argument defaults, pruning of
 * the walked subdirectories, selection of the listed files, and the turning
 * of a directory path into tree components and of a file into its link path.
 */
module WalkFilter {
  import opened Wrappers
  import opened PyStr

  /** The directories skipped when `exclude_dirs` is `None`. */
  const DefaultExcludeDirs: seq<string> := [".git", "node_modules", "__pycache__", ".idea"]

  /** The extensions listed when `extensions` is `None`. */
  const DefaultExtensions: seq<string> := [".md", ".py"]

  /** The value an optional list argument takes: the default only for `None`, never for an empty list. */
  function OrDefault(arg: Option<seq<string>>, default: seq<string>): seq<string>
  {
    match arg
    case None => default
    case Some(given) => given
  }

  /** `a` is `b` with some elements left out, the rest in their order. */
  predicate IsSubsequence<T(==)>(a: seq<T>, b: seq<T>)
    decreases |b|
  {
    a == [] || (b != [] && if a[0] == b[0] then IsSubsequence(a[1..], b[1..]) else IsSubsequence(a, b[1..]))
  }

  /** Whether a walked subdirectory is descended into. */
  predicate KeepDir(name: string, excludeDirs: seq<string>)
  {
    name !in excludeDirs && !StartsWith(name, ".")
  }

  /** The subdirectories the walk enters: in order, the names that are not excluded and do not start with a dot. */
  function PruneDirs(dirnames: seq<string>, excludeDirs: seq<string>): (kept: seq<string>)
    ensures forall d :: d in kept <==> d in dirnames && d !in excludeDirs && !StartsWith(d, ".")
    ensures forall d :: KeepDir(d, excludeDirs) ==> multiset(kept)[d] == multiset(dirnames)[d]
    ensures IsSubsequence(kept, dirnames)
  {
    if dirnames == [] then []
    else
      var rest := PruneDirs(dirnames[1..], excludeDirs);
      assert dirnames == [dirnames[0]] + dirnames[1..];
      if KeepDir(dirnames[0], excludeDirs) then
        assert ([dirnames[0]] + rest)[1..] == rest;
        [dirnames[0]] + rest
      else
        assert rest == [] || rest[0] != dirnames[0];
        rest
  }

  /** Whether a file is listed: one of the extensions ends its name, and it is not `README.md`. */
  predicate IsRelevant(filename: string, extensions: seq<string>)
  {
    EndsWithAny(filename, extensions) && filename != "README.md"
  }

  /** The files of a directory that are listed: in order, those ending with an extension, except `README.md`. */
  function RelevantFiles(filenames: seq<string>, extensions: seq<string>): (listed: seq<string>)
    ensures forall f :: f in listed <==> f in filenames && EndsWithAny(f, extensions) && f != "README.md"
    ensures forall f :: IsRelevant(f, extensions) ==> multiset(listed)[f] == multiset(filenames)[f]
    ensures IsSubsequence(listed, filenames)
    ensures extensions == [] ==> listed == []
  {
    if filenames == [] then []
    else
      var rest := RelevantFiles(filenames[1..], extensions);
      assert filenames == [filenames[0]] + filenames[1..];
      if IsRelevant(filenames[0], extensions) then
        assert ([filenames[0]] + rest)[1..] == rest;
        [filenames[0]] + rest
      else
        assert rest == [] || rest[0] != filenames[0];
        rest
  }

  /** A walked directory with backslashes turned into slashes and its leading dots and slashes removed. */
  function Normalised(dirpath: string): string
  {
    LStrip(ReplaceChar(dirpath, '\\', "/"), {'.', '/'})
  }

  /**
   * The tree components of a directory: the normalised path split on `/`,
   * with a leading empty component dropped. Empty exactly when the path is
   * made only of dots, slashes and backslashes: the walk's root is skipped.
   */
  function PathParts(dirpath: string): (parts: seq<string>)
    ensures parts == [] <==> forall i :: 0 <= i < |dirpath| ==> dirpath[i] in {'.', '/', '\\'}
    ensures parts != [] ==> Join(parts, "/") == Normalised(dirpath)
    ensures forall i :: 0 <= i < |parts| ==> '/' !in parts[i] && '\\' !in parts[i]
    ensures parts != [] ==> parts[0] != "" && parts[0][0] != '.'
  {
    NormalisedEmpty(dirpath);
    var stripped := Normalised(dirpath);
    var split := Split(stripped, '/');
    NormalisedSplitHead(dirpath);
    NormalisedWithoutBackslash(dirpath);
    SplitPiecesWithout(stripped, '/', '\\');
    if split[0] == "" then split[1..] else split
  }

  lemma NormalisedEmpty(dirpath: string)
    ensures Normalised(dirpath) == [] <==> forall i :: 0 <= i < |dirpath| ==> dirpath[i] in {'.', '/', '\\'}
    ensures Normalised(dirpath) != [] ==> Normalised(dirpath)[0] !in {'.', '/'}
  {
    var replaced := ReplaceChar(dirpath, '\\', "/");
    var stripped := LStrip(replaced, {'.', '/'});
    if stripped != [] {
      assert replaced[|replaced| - |stripped|] == stripped[0];
    }
  }

  lemma NormalisedSplitHead(dirpath: string)
    ensures Normalised(dirpath) != [] ==> Split(Normalised(dirpath), '/')[0] != "" && Split(Normalised(dirpath), '/')[0][0] == Normalised(dirpath)[0]
    ensures Normalised(dirpath) == [] ==> Split(Normalised(dirpath), '/') == [""]
  {
    NormalisedEmpty(dirpath);
    if Normalised(dirpath) != [] {
      SplitHead(Normalised(dirpath), '/');
    }
  }

  lemma NormalisedWithoutBackslash(dirpath: string)
    ensures '\\' !in Normalised(dirpath)
  {
    var replaced := ReplaceChar(dirpath, '\\', "/");
    assert '\\' !in replaced;
    var stripped := LStrip(replaced, {'.', '/'});
    assert stripped == replaced[|replaced| - |stripped|..];
  }

  /** The path recorded for a file: directory and name joined, backslashes turned into slashes, less one leading `./`. */
  function StoredPath(dirpath: string, filename: string): (path: string)
    ensures '\\' !in path
    ensures var full := ReplaceChar(PathJoin(dirpath, filename), '\\', "/");
      if StartsWith(full, "./") then "./" + path == full else path == full
  {
    DropDotSlash(ReplaceChar(PathJoin(dirpath, filename), '\\', "/"))
  }

  /** Removes one leading `./`, when there is one. */
  function DropDotSlash(full: string): (path: string)
    ensures if StartsWith(full, "./") then "./" + path == full else path == full
    ensures forall c :: c in path ==> c in full
  {
    if StartsWith(full, "./") then
      assert full == full[..2] + full[2..];
      full[2..]
    else full
  }

  /** Stripping a run of strip characters in front of a string that does not start with one leaves that string. */
  lemma {:induction false} LStripAll(a: string, b: string, chars: set<char>)
    requires forall i :: 0 <= i < |a| ==> a[i] in chars
    requires b != [] && b[0] !in chars
    ensures LStrip(a + b, chars) == b
  {
    if a != [] {
      assert (a + b)[0] == a[0] && (a + b)[1..] == a[1..] + b;
      LStripAll(a[1..], b, chars);
    } else {
      assert a + b == b;
    }
  }

  /** Components that a walk from the root `.` can produce: non-empty, free of separators, not starting with a dot. */
  predicate WalkedComponents(components: seq<string>)
  {
    && components != []
    && (forall i :: 0 <= i < |components| ==> components[i] != "" && '/' !in components[i] && '\\' !in components[i])
    && components[0][0] != '.'
  }

  lemma JoinedWithoutBackslash(components: seq<string>)
    requires WalkedComponents(components)
    ensures '\\' !in Join(components, "/")
  {
    forall c | c in Join(components, "/") ensures c != '\\' {
      JoinChars(components, "/", c);
    }
  }

  /**
   * A directory written as a run of dots and slashes followed by `c1/.../cn`
   * (the walk from the root `.` gives `./c1/.../cn`) has the tree components
   * `c1 ... cn`: the whole leading run is stripped, not only one `./`.
   */
  lemma WalkedPathParts(prefix: string, components: seq<string>)
    requires forall i :: 0 <= i < |prefix| ==> prefix[i] in {'.', '/'}
    requires WalkedComponents(components)
    ensures PathParts(prefix + Join(components, "/")) == components
  {
    var j := Join(components, "/");
    JoinedWithoutBackslash(components);
    assert '\\' !in prefix + j;
    assert ReplaceChar(prefix + j, '\\', "/") == prefix + j;
    JoinStartsWith(components, "/");
    assert j[0] == components[0][0];
    LStripAll(prefix, j, {'.', '/'});
    assert Normalised(prefix + j) == j;
    PyStr.SplitJoin(components, '/');
  }

  /** A file in the directory `./c1/.../cn` is stored under the path `c1/.../cn/filename`. */
  lemma WalkedStoredPath(components: seq<string>, filename: string)
    requires WalkedComponents(components)
    requires filename != "" && '/' !in filename && '\\' !in filename
    ensures StoredPath("./" + Join(components, "/"), filename) == Join(components + [filename], "/")
  {
    var j := Join(components, "/");
    var dirpath := "./" + j;
    JoinedWithoutBackslash(components);
    JoinEndsWith(components, "/");
    var last := components[|components| - 1];
    assert j[|j| - 1] == last[|last| - 1];
    assert !EndsWith(dirpath, "/") by { assert dirpath[|dirpath| - 1] == j[|j| - 1]; }
    var full := dirpath + "/" + filename;
    assert PathJoin(dirpath, filename) == full;
    assert '\\' !in full;
    assert full[..2] == "./" && full[2..] == j + "/" + filename;
    PyStr.JoinAppend(components, filename, "/");
  }

  lemma {:induction false} JoinChars(parts: seq<string>, sep: string, c: char)
    requires c in Join(parts, sep)
    ensures c in sep || exists i :: 0 <= i < |parts| && c in parts[i]
  {
    if |parts| > 1 {
      var rest := Join(parts[1..], sep);
      assert Join(parts, sep) == parts[0] + sep + rest;
      if c !in parts[0] && c !in sep {
        JoinChars(parts[1..], sep, c);
        var i :| 0 <= i < |parts[1..]| && c in parts[1..][i];
        assert c in parts[i + 1];
      }
    }
  }

  lemma {:induction false} JoinEndsWith(parts: seq<string>, sep: string)
    requires parts != []
    ensures EndsWith(Join(parts, sep), parts[|parts| - 1])
  {
    if |parts| > 1 {
      JoinEndsWith(parts[1..], sep);
      assert Join(parts, sep) == (parts[0] + sep) + Join(parts[1..], sep);
    }
  }
}
