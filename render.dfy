/**
 * `build_markdown`: the structure rendered as Markdown, one block per
 * directory in sorted key order: a heading, the directory's files as links,
 * the rendering of its subdirectories one level deeper, and an empty line.
 */
module Render {
  import opened PyStr
  import opened PySorted
  import opened StudyTree

  /** `c * n` */
  function Repeat(c: char, n: nat): (r: string)
    ensures |r| == n && forall i :: 0 <= i < n ==> r[i] == c
  {
    if n == 0 then "" else [c] + Repeat(c, n - 1)
  }

  /** The heading of a directory: `level` hashes and its title-cased name, as a bullet below level 3. */
  function Heading(name: string, level: nat): string
  {
    var title := Repeat('#', level) + " " + Title(name);
    if level <= 3 then title else "- " + title
  }

  /** The sort key of a file record, `x["name"]`. */
  function ByName(f: FileEntry): string
  {
    f.name
  }

  /** The link to a file: its name without extension, its path with spaces written `%20`. */
  function LinkLine(f: FileEntry, level: nat): string
  {
    var text := SplitExt(f.name).0;
    var target := ReplaceChar(f.path, ' ', "%20");
    if level <= 3 then "- [" + text + "](" + target + ")"
    else "  - [" + text + "](" + target + ")"
  }

  function FileLines(files: seq<FileEntry>, level: nat): seq<string>
  {
    seq(|files|, i requires 0 <= i < |files| => LinkLine(files[i], level))
  }

  predicate AllKeys(d: Dirs, keys: seq<string>)
  {
    forall k :: k in keys ==> k in Names(d)
  }

  /** `build_markdown(d, level)` */
  function Markdown(d: Dirs, level: nat): string
    decreases d, 2
  {
    Join(Blocks(d, SortStrings(Names(d)), level), "\n")
  }

  /** The `md` list after the loop has visited `keys`. */
  function Blocks(d: Dirs, keys: seq<string>, level: nat): seq<string>
    requires AllKeys(d, keys)
    decreases d, 1, |keys|
  {
    if keys == [] then []
    else Blocks(d, keys[..|keys| - 1], level) + DirBlock(d, keys[|keys| - 1], level)
  }

  /** What one iteration of the loop appends to `md` for the directory `name`. */
  function DirBlock(d: Dirs, name: string, level: nat): seq<string>
    requires name in Names(d)
    decreases d, 0
  {
    var data := d[IndexOf(d, name)].node;
    [Heading(name, level)] + FileLines(SortBy(data.files, ByName), level)
    + (if data.dirs != [] then [Markdown(data.dirs, level + 1)] else [])
    + [""]
  }

  /** The lines of the rendering, nested renderings spliced in: an independent reading of the format. */
  function Outline(d: Dirs, level: nat): seq<string>
    decreases d, 2
  {
    OutlineBlocks(d, SortStrings(Names(d)), level)
  }

  function OutlineBlocks(d: Dirs, keys: seq<string>, level: nat): seq<string>
    requires AllKeys(d, keys)
    decreases d, 1, |keys|
  {
    if keys == [] then []
    else OutlineBlocks(d, keys[..|keys| - 1], level) + OutlineBlock(d, keys[|keys| - 1], level)
  }

  function OutlineBlock(d: Dirs, name: string, level: nat): seq<string>
    requires name in Names(d)
    decreases d, 0
  {
    var data := d[IndexOf(d, name)].node;
    [Heading(name, level)] + FileLines(SortBy(data.files, ByName), level)
    + Outline(data.dirs, level + 1) + [""]
  }

  /**
   * The rendering is the outline joined by newlines: every nested
   * rendering is a run of whole lines, so the result is one heading line per
   * directory, one link line per file and one empty line closing each
   * directory.
   */
  lemma {:induction false} MarkdownIsOutline(d: Dirs, level: nat)
    ensures Markdown(d, level) == Join(Outline(d, level), "\n")
    ensures d != [] ==> Outline(d, level) != []
    decreases d, 2
  {
    var keys := SortStrings(Names(d));
    assert |keys| == |d| by {
      assert |multiset(keys)| == |multiset(Names(d))|;
    }
    BlocksAreOutline(d, keys, level);
  }

  lemma {:induction false} BlocksAreOutline(d: Dirs, keys: seq<string>, level: nat)
    requires AllKeys(d, keys)
    ensures Join(Blocks(d, keys, level), "\n") == Join(OutlineBlocks(d, keys, level), "\n")
    ensures keys != [] ==> Blocks(d, keys, level) != [] && OutlineBlocks(d, keys, level) != []
    decreases d, 1, |keys|
  {
    if keys != [] {
      var init := keys[..|keys| - 1];
      var k := keys[|keys| - 1];
      BlocksAreOutline(d, init, level);
      BlockIsOutline(d, k, level);
      if init == [] {
        assert Blocks(d, keys, level) == DirBlock(d, k, level);
        assert OutlineBlocks(d, keys, level) == OutlineBlock(d, k, level);
      } else {
        JoinConcat(Blocks(d, init, level), DirBlock(d, k, level), "\n");
        JoinConcat(OutlineBlocks(d, init, level), OutlineBlock(d, k, level), "\n");
      }
    }
  }

  lemma {:induction false} BlockIsOutline(d: Dirs, name: string, level: nat)
    requires name in Names(d)
    ensures Join(DirBlock(d, name, level), "\n") == Join(OutlineBlock(d, name, level), "\n")
    decreases d, 0
  {
    var data := d[IndexOf(d, name)].node;
    var head := [Heading(name, level)] + FileLines(SortBy(data.files, ByName), level);
    if data.dirs == [] {
      assert SortStrings(Names(data.dirs)) == [];
      assert Outline(data.dirs, level + 1) == [];
      assert DirBlock(d, name, level) == OutlineBlock(d, name, level);
    } else {
      var m := Markdown(data.dirs, level + 1);
      var o := Outline(data.dirs, level + 1);
      MarkdownIsOutline(data.dirs, level + 1);
      assert DirBlock(d, name, level) == (head + [m]) + [""];
      assert OutlineBlock(d, name, level) == (head + o) + [""];
      JoinAppend(head + [m], "", "\n");
      JoinAppend(head, m, "\n");
      JoinAppend(head + o, "", "\n");
      JoinConcat(head, o, "\n");
    }
  }

  lemma {:induction false} BlocksHead(d: Dirs, keys: seq<string>, level: nat)
    requires AllKeys(d, keys) && keys != []
    ensures Blocks(d, keys, level) != [] && Blocks(d, keys, level)[0] == Heading(keys[0], level)
    decreases |keys|
  {
    if |keys| > 1 {
      var init := keys[..|keys| - 1];
      BlocksHead(d, init, level);
      assert init[0] == keys[0];
    } else {
      assert Blocks(d, keys, level) == DirBlock(d, keys[0], level);
    }
  }

  /** A structure renders as the empty string exactly when it has no directory. */
  lemma MarkdownEmpty(d: Dirs, level: nat)
    ensures Markdown(d, level) == "" <==> d == []
  {
    var keys := SortStrings(Names(d));
    if d != [] {
      assert |keys| == |d| by {
        assert |multiset(keys)| == |multiset(Names(d))|;
      }
      BlocksHead(d, keys, level);
      JoinStartsWith(Blocks(d, keys, level), "\n");
      assert |Heading(keys[0], level)| > 0;
    } else {
      assert keys == [];
    }
  }

  lemma BlocksStep(d: Dirs, keys: seq<string>, k: nat, level: nat)
    requires AllKeys(d, keys) && k < |keys|
    ensures Blocks(d, keys[..k + 1], level) == Blocks(d, keys[..k], level) + DirBlock(d, keys[k], level)
  {
    assert keys[..k + 1][..k] == keys[..k];
  }

  lemma DirBlockShape(d: Dirs, name: string, level: nat, head: seq<string>, nested: seq<string>)
    requires name in Names(d)
    requires head == [Heading(name, level)] + FileLines(SortBy(d[IndexOf(d, name)].node.files, ByName), level)
    requires var n := d[IndexOf(d, name)].node; nested == if n.dirs != [] then [Markdown(n.dirs, level + 1)] else []
    ensures DirBlock(d, name, level) == head + nested + [""]
  {
  }

  lemma ConcatAssoc<T>(a: seq<T>, b: seq<T>, c: seq<T>)
    ensures a + b + c == a + (b + c)
  {
  }

  lemma FileLinesStep(files: seq<FileEntry>, j: nat, level: nat)
    requires j < |files|
    ensures FileLines(files[..j + 1], level) == FileLines(files[..j], level) + [LinkLine(files[j], level)]
  {
  }

  /** The inner loop over a directory's sorted files: one link line per file, in the given order. */
  method AppendLinks(lines: seq<string>, files: seq<FileEntry>, level: nat) returns (out: seq<string>)
    ensures out == lines + FileLines(files, level)
  {
    out := lines;
    for j := 0 to |files|
      invariant out == lines + FileLines(files[..j], level)
    {
      var fileName := SplitExt(files[j].name).0;
      var filePath := ReplaceChar(files[j].path, ' ', "%20");
      var line: string;
      if level <= 3 {
        line := "- [" + fileName + "](" + filePath + ")";
      } else {
        line := "  - [" + fileName + "](" + filePath + ")";
      }
      assert line == LinkLine(files[j], level);
      FileLinesStep(files, j, level);
      ConcatAssoc(lines, FileLines(files[..j], level), [line]);
      out := out + [line];
    }
    assert files[..|files|] == files;
  }

  /** One iteration of the loop over the sorted keys: appends the block of the directory `dirName`. */
  method AppendDir(lines: seq<string>, d: Dirs, dirName: string, level: nat) returns (out: seq<string>)
    requires dirName in Names(d)
    ensures out == lines + DirBlock(d, dirName, level)
    decreases d, 0
  {
    var dirData := d[IndexOf(d, dirName)].node;

    var titleStr := Repeat('#', level) + " " + Title(dirName);
    var heading: string;
    if level <= 3 {
      heading := titleStr;
    } else {
      heading := "- " + titleStr;
    }
    assert heading == Heading(dirName, level);
    out := lines + [heading];

    var files := SortBy(dirData.files, ByName);
    out := AppendLinks(out, files, level);
    ghost var head := [heading] + FileLines(files, level);
    ConcatAssoc(lines, [heading], FileLines(files, level));

    var subdirs := dirData.dirs;
    ghost var nested: seq<string> := [];
    if subdirs != [] {
      var sub := BuildMarkdown(subdirs, level + 1);
      nested := [sub];
      out := out + [sub];
    }
    ConcatAssoc(lines, head, nested);

    ConcatAssoc(lines, head + nested, [""]);
    out := out + [""];
    DirBlockShape(d, dirName, level, head, nested);
  }

  /**
   * `build_markdown(d, level)`: sorts the keys, appends each directory's
   * block to `md` in a loop and joins it with newlines.
   */
  method BuildMarkdown(d: Dirs, level: nat) returns (md: string)
    ensures md == Markdown(d, level)
    decreases d, 1
  {
    var lines: seq<string> := [];
    var keys := SortStrings(Names(d));
    for k := 0 to |keys|
      invariant lines == Blocks(d, keys[..k], level)
    {
      lines := AppendDir(lines, d, keys[k], level);
      BlocksStep(d, keys, k, level);
    }
    assert keys[..|keys|] == keys;
    md := Join(lines, "\n");
  }
}
