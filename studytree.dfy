/**
 * The nested structure the generator builds: every node is a
 * `{"files": [...], "dirs": {...}}` dictionary, and `dirs` maps a directory
 * name to its node. A Python dict is modelled as the sequence of its entries
 * in insertion order, which is the order Python keeps; `path` arguments are
 * sequences of directory names, read from the top.
 */
module StudyTree {
  import opened Wrappers

  /** One `{"name": ..., "path": ...}` record of a listed file. */
  datatype FileEntry = FileEntry(name: string, path: string)

  /** One `{"files": [...], "dirs": {...}}` node. */
  datatype Node = Node(files: seq<FileEntry>, dirs: Dirs)

  /** One `name: node` entry of a `dirs` dictionary. */
  datatype Child = Child(name: string, node: Node)

  /** A dictionary from directory names to nodes, in insertion order. */
  type Dirs = seq<Child>

  /** The keys of a dictionary, in insertion order. */
  function Names(d: Dirs): (names: seq<string>)
    ensures |names| == |d|
    ensures forall i :: 0 <= i < |d| ==> names[i] == d[i].name
  {
    seq(|d|, i requires 0 <= i < |d| => d[i].name)
  }

  /** The position of the entry with key `name`, or -1 when the key is missing. */
  function IndexOf(d: Dirs, name: string): (i: int)
    ensures -1 <= i < |d|
    ensures i >= 0 ==> d[i].name == name
    ensures forall j :: 0 <= j < |d| && (i < 0 || j < i) ==> d[j].name != name
    ensures i >= 0 <==> name in Names(d)
  {
    if d == [] then -1
    else if d[0].name == name then 0
    else
      var k := IndexOf(d[1..], name);
      if k < 0 then -1 else k + 1
  }

  /** Python dictionaries have distinct keys, at every level. */
  predicate IsDict(d: Dirs)
  {
    && (forall i, j :: 0 <= i < j < |d| ==> d[i].name != d[j].name)
    && (forall i :: 0 <= i < |d| ==> IsDict(d[i].node.dirs))
  }

  /** The node reached by following `path` from the top-level dictionary. */
  function Find(d: Dirs, path: seq<string>): Option<Node>
    decreases path
  {
    if path == [] then None
    else
      var i := IndexOf(d, path[0]);
      if i < 0 then None
      else if |path| == 1 then Some(d[i].node)
      else Find(d[i].node.dirs, path[1..])
  }

  predicate Present(d: Dirs, path: seq<string>)
  {
    Find(d, path).Some?
  }

  /** The files recorded at `path`; nothing where there is no node. */
  function FilesAt(d: Dirs, path: seq<string>): seq<FileEntry>
  {
    match Find(d, path)
    case Some(n) => n.files
    case None => []
  }

  /** Following one more component from a present node looks it up in that node's `dirs`. */
  lemma {:induction false} FindExtend(d: Dirs, q: seq<string>, x: string)
    requires Present(d, q)
    ensures Find(d, q + [x]) == Find(Find(d, q).value.dirs, [x])
    decreases q
  {
    assert (q + [x])[0] == q[0];
    if |q| > 1 {
      var i := IndexOf(d, q[0]);
      assert (q + [x])[1..] == q[1..] + [x];
      FindExtend(d[i].node.dirs, q[1..], x);
    }
  }

  /** A node is present only where all its ancestors are. */
  lemma {:induction false} PresentPrefix(d: Dirs, q: seq<string>, k: nat)
    requires Present(d, q) && 0 < k <= |q|
    ensures Present(d, q[..k])
    decreases q
  {
    if k > 1 {
      var i := IndexOf(d, q[0]);
      PresentPrefix(d[i].node.dirs, q[1..], k - 1);
      assert q[..k][1..] == q[1..][..k - 1];
    }
  }

  lemma IndexOfAppend(d: Dirs, c: Child, name: string)
    ensures IndexOf(d + [c], name) ==
      if IndexOf(d, name) >= 0 then IndexOf(d, name) else if c.name == name then |d| else -1
  {
    var k := IndexOf(d + [c], name);
    var i := IndexOf(d, name);
    if i >= 0 {
      assert (d + [c])[i].name == name;
    } else if c.name == name {
      assert (d + [c])[|d|].name == name;
    }
  }

  lemma IndexOfUpdate(d: Dirs, i: nat, c: Child, name: string)
    requires i < |d| && c.name == d[i].name
    ensures IndexOf(d[i := c], name) == IndexOf(d, name)
  {
    var k := IndexOf(d, name);
    if k >= 0 {
      assert d[i := c][k].name == name;
    }
  }

  /**
   * The insertion loop: for each component, create an empty node when
   * the key is missing (appended, as a new dict key is), then descend.
   */
  function EnsurePath(d: Dirs, parts: seq<string>): (r: Dirs)
    ensures Names(d) <= Names(r)
    decreases parts
  {
    if parts == [] then d
    else
      var i := IndexOf(d, parts[0]);
      if i < 0 then
        d + [Child(parts[0], Node([], EnsurePath([], parts[1..])))]
      else
        var n := d[i].node;
        d[i := Child(parts[0], n.(dirs := EnsurePath(n.dirs, parts[1..])))]
  }

  lemma FindEmpty(q: seq<string>)
    ensures Find([], q) == None
  {
  }

  lemma {:induction false} EnsurePathAt(d: Dirs, parts: seq<string>, q: seq<string>)
    ensures Present(EnsurePath(d, parts), q) <==> Present(d, q) || (q != [] && q <= parts)
    ensures FilesAt(EnsurePath(d, parts), q) == FilesAt(d, q)
    decreases parts
  {
    if parts != [] && q != [] {
      var p := parts[0];
      var i := IndexOf(d, p);
      assert q <= parts <==> q[0] == p && q[1..] <= parts[1..];
      if i < 0 {
        var c := Child(p, Node([], EnsurePath([], parts[1..])));
        IndexOfAppend(d, c, q[0]);
        if q[0] == p && |q| > 1 {
          EnsurePathAt([], parts[1..], q[1..]);
          FindEmpty(q[1..]);
        }
      } else {
        var n := d[i].node;
        var c := Child(p, n.(dirs := EnsurePath(n.dirs, parts[1..])));
        IndexOfUpdate(d, i, c, q[0]);
        if q[0] == p && |q| > 1 {
          EnsurePathAt(n.dirs, parts[1..], q[1..]);
        }
      }
    }
  }

  /**
   * Inserting a path leaves a node at every non-empty prefix of it, adds no
   * other node, and changes no node's files: nodes that existed keep theirs
   * and new nodes have none.
   */
  lemma EnsurePathSpec(d: Dirs, parts: seq<string>)
    ensures forall q :: Present(EnsurePath(d, parts), q) <==> Present(d, q) || (q != [] && q <= parts)
    ensures forall q :: FilesAt(EnsurePath(d, parts), q) == FilesAt(d, q)
  {
    forall q ensures (Present(EnsurePath(d, parts), q) <==> Present(d, q) || (q != [] && q <= parts))
                 && FilesAt(EnsurePath(d, parts), q) == FilesAt(d, q) {
      EnsurePathAt(d, parts, q);
    }
  }

  /** Inserting a path creates a node only for a missing key, so every dictionary keeps distinct keys. */
  lemma {:induction false} EnsurePathIsDict(d: Dirs, parts: seq<string>)
    requires IsDict(d)
    ensures IsDict(EnsurePath(d, parts))
    decreases parts
  {
    if parts != [] {
      var i := IndexOf(d, parts[0]);
      if i < 0 {
        EnsurePathIsDict([], parts[1..]);
      } else {
        EnsurePathIsDict(d[i].node.dirs, parts[1..]);
      }
    }
  }

  /** When every prefix of the path is already present, insertion changes nothing. */
  lemma {:induction false} EnsurePathExisting(d: Dirs, parts: seq<string>)
    requires forall k :: 0 < k <= |parts| ==> Present(d, parts[..k])
    ensures EnsurePath(d, parts) == d
    decreases parts
  {
    if parts != [] {
      assert Present(d, parts[..1]);
      var i := IndexOf(d, parts[0]);
      var n := d[i].node;
      forall k | 0 < k <= |parts[1..]| ensures Present(n.dirs, parts[1..][..k]) {
        assert Present(d, parts[..k + 1]);
        assert parts[..k + 1][1..] == parts[1..][..k];
      }
      EnsurePathExisting(n.dirs, parts[1..]);
      assert d[i] == Child(parts[0], n);
    }
  }

  /** Inserting the same path twice gives the same structure as inserting it once. */
  lemma EnsurePathIdempotent(d: Dirs, parts: seq<string>)
    ensures EnsurePath(EnsurePath(d, parts), parts) == EnsurePath(d, parts)
  {
    EnsurePathSpec(d, parts);
    forall k | 0 < k <= |parts| ensures Present(EnsurePath(d, parts), parts[..k]) {
      assert parts[..k] <= parts;
    }
    EnsurePathExisting(EnsurePath(d, parts), parts);
  }

  /**
   * The placement of one record: walk to the last component of `path` and append `e` to the
   * `files` list there. The source raises `KeyError` on a missing key; the
   * generator only calls this after `EnsurePath`, so the path is present.
   */
  function AppendAt(d: Dirs, path: seq<string>, e: FileEntry): (r: Dirs)
    requires Present(d, path)
    ensures Names(r) == Names(d)
    decreases path
  {
    var i := IndexOf(d, path[0]);
    var n := d[i].node;
    if |path| == 1 then
      d[i := Child(path[0], n.(files := n.files + [e]))]
    else
      d[i := Child(path[0], n.(dirs := AppendAt(n.dirs, path[1..], e)))]
  }

  /** Looking up a path after replacing the node of entry `i` by a node under the same key. */
  lemma FindUpdate(d: Dirs, i: nat, c: Child, q: seq<string>)
    requires i < |d| && c.name == d[i].name && q != []
    ensures Find(d[i := c], q) ==
      if IndexOf(d, q[0]) != i then Find(d, q)
      else if |q| == 1 then Some(c.node)
      else Find(c.node.dirs, q[1..])
  {
    IndexOfUpdate(d, i, c, q[0]);
    var k := IndexOf(d, q[0]);
    if k >= 0 && k != i {
      assert d[i := c][k] == d[k];
    }
  }

  lemma {:induction false} AppendAtPresent(d: Dirs, path: seq<string>, e: FileEntry, q: seq<string>)
    requires Present(d, path)
    ensures Present(AppendAt(d, path, e), q) <==> Present(d, q)
    decreases path
  {
    if q != [] {
      var i := IndexOf(d, path[0]);
      var n := d[i].node;
      var c := if |path| == 1 then Child(path[0], n.(files := n.files + [e]))
               else Child(path[0], n.(dirs := AppendAt(n.dirs, path[1..], e)));
      assert AppendAt(d, path, e) == d[i := c];
      FindUpdate(d, i, c, q);
      if IndexOf(d, q[0]) == i && |q| > 1 && |path| > 1 {
        AppendAtPresent(n.dirs, path[1..], e, q[1..]);
      }
    }
  }

  lemma {:induction false} AppendAtFiles(d: Dirs, path: seq<string>, e: FileEntry, q: seq<string>)
    requires Present(d, path)
    ensures FilesAt(AppendAt(d, path, e), q) == FilesAt(d, q) + (if q == path then [e] else [])
    decreases path
  {
    if q != [] {
      var i := IndexOf(d, path[0]);
      var n := d[i].node;
      var c := if |path| == 1 then Child(path[0], n.(files := n.files + [e]))
               else Child(path[0], n.(dirs := AppendAt(n.dirs, path[1..], e)));
      assert AppendAt(d, path, e) == d[i := c];
      FindUpdate(d, i, c, q);
      if IndexOf(d, q[0]) != i {
        assert q[0] != path[0];
      } else if |q| == 1 {
        assert q == path <==> |path| == 1;
      } else if |path| == 1 {
        assert q != path;
      } else {
        assert q == path <==> q[1..] == path[1..];
        AppendAtFiles(n.dirs, path[1..], e, q[1..]);
      }
    }
  }

  /** Appending a record adds it to the files at `path` and changes no other node's files nor the set of nodes. */
  lemma AppendAtSpec(d: Dirs, path: seq<string>, e: FileEntry)
    requires Present(d, path)
    ensures forall q :: Present(AppendAt(d, path, e), q) <==> Present(d, q)
    ensures forall q :: FilesAt(AppendAt(d, path, e), q) == FilesAt(d, q) + (if q == path then [e] else [])
  {
    forall q ensures (Present(AppendAt(d, path, e), q) <==> Present(d, q))
                 && FilesAt(AppendAt(d, path, e), q) == FilesAt(d, q) + (if q == path then [e] else []) {
      AppendAtPresent(d, path, e, q);
      AppendAtFiles(d, path, e, q);
    }
  }

  lemma {:induction false} AppendAtIsDict(d: Dirs, path: seq<string>, e: FileEntry)
    requires Present(d, path)
    ensures IsDict(d) ==> IsDict(AppendAt(d, path, e))
    decreases path
  {
    if |path| > 1 {
      var i := IndexOf(d, path[0]);
      AppendAtIsDict(d[i].node.dirs, path[1..], e);
    }
  }

  /** Appends the records one after the other at `path`, as the per-file loop does. */
  function AddFiles(d: Dirs, path: seq<string>, records: seq<FileEntry>): Dirs
    requires Present(d, path)
    decreases |records|, 0
  {
    if records == [] then d
    else
      var init := AddFiles(d, path, records[..|records| - 1]);
      AddFilesPresent(d, path, records[..|records| - 1]);
      AppendAt(init, path, records[|records| - 1])
  }

  lemma {:induction false} AddFilesPresent(d: Dirs, path: seq<string>, records: seq<FileEntry>)
    requires Present(d, path)
    ensures forall q :: Present(AddFiles(d, path, records), q) <==> Present(d, q)
    decreases |records|, 1
  {
    if records != [] {
      var init := records[..|records| - 1];
      AddFilesPresent(d, path, init);
      AppendAtSpec(AddFiles(d, path, init), path, records[|records| - 1]);
    }
  }

  /**
   * Appending the records keeps the set of nodes, extends the files at
   * `path` by the records in their order, changes no other node's files,
   * and keeps every dictionary's keys distinct.
   */
  lemma {:induction false} AddFilesSpec(d: Dirs, path: seq<string>, records: seq<FileEntry>)
    requires Present(d, path)
    ensures forall q :: Present(AddFiles(d, path, records), q) <==> Present(d, q)
    ensures forall q :: FilesAt(AddFiles(d, path, records), q) == FilesAt(d, q) + (if q == path then records else [])
    ensures IsDict(d) ==> IsDict(AddFiles(d, path, records))
  {
    AddFilesPresent(d, path, records);
    forall q ensures FilesAt(AddFiles(d, path, records), q) == FilesAt(d, q) + (if q == path then records else []) {
      AddFilesAt(d, path, records, q);
    }
    AddFilesIsDict(d, path, records);
  }

  lemma {:induction false} AddFilesAt(d: Dirs, path: seq<string>, records: seq<FileEntry>, q: seq<string>)
    requires Present(d, path)
    ensures q == path ==> FilesAt(AddFiles(d, path, records), q) == FilesAt(d, q) + records
    ensures q != path ==> FilesAt(AddFiles(d, path, records), q) == FilesAt(d, q)
    decreases |records|
  {
    if records != [] {
      var init := records[..|records| - 1];
      var last := records[|records| - 1];
      AddFilesAt(d, path, init, q);
      AddFilesLast(d, path, records, q);
      if q == path {
        AppendLast(FilesAt(d, q), records);
      }
    }
  }

  /** The last record is appended to the files at `path` after the others have been placed. */
  lemma AddFilesLast(d: Dirs, path: seq<string>, records: seq<FileEntry>, q: seq<string>)
    requires Present(d, path) && records != []
    ensures q == path ==> (FilesAt(AddFiles(d, path, records), q) ==
      FilesAt(AddFiles(d, path, records[..|records| - 1]), q) + [records[|records| - 1]])
    ensures q != path ==> (FilesAt(AddFiles(d, path, records), q) ==
      FilesAt(AddFiles(d, path, records[..|records| - 1]), q))
  {
    var before := AddFiles(d, path, records[..|records| - 1]);
    AddFilesPresent(d, path, records[..|records| - 1]);
    assert Present(before, path);
    AppendAtFiles(before, path, records[|records| - 1], q);
  }

  lemma AppendLast<T>(a: seq<T>, s: seq<T>)
    requires s != []
    ensures a + s[..|s| - 1] + [s[|s| - 1]] == a + s
  {
    assert s == s[..|s| - 1] + [s[|s| - 1]];
  }

  lemma {:induction false} AddFilesIsDict(d: Dirs, path: seq<string>, records: seq<FileEntry>)
    requires Present(d, path)
    ensures IsDict(d) ==> IsDict(AddFiles(d, path, records))
    decreases |records|
  {
    if records != [] {
      var init := records[..|records| - 1];
      AddFilesIsDict(d, path, init);
      AddFilesPresent(d, path, init);
      AppendAtIsDict(AddFiles(d, path, init), path, records[|records| - 1]);
    }
  }
}
