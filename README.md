# Study-links generator, modelled in Dafny

The repository keeps study notes and code in nested directories. A script
regenerates the top-level `README.md` as a table of contents. Its core is
`generate_study_links(root_dir, exclude_dirs, extensions)`, which:

- walks the directory tree and prunes the subdirectories it will not enter
  (an exclusion list, and every name starting with a dot);
- keeps the files whose names end with one of the extensions, except
  `README.md`;
- turns each directory path into a list of components and inserts them into
  a nested `{"files": [...], "dirs": {...}}` dictionary;
- appends one `{"name", "path"}` record per kept file at the deepest node;
- renders the dictionary with the recursive `build_markdown`. The rendering
  has one heading per directory in sorted key order (`#` repeated `level`
  times, or a bullet from level 4 on). It has one link per file, sorted by
  name: the link text is the name without its extension, spaces kept, and
  only the link target writes spaces as `%20`. It has one blank line after
  each directory.
- puts the title `# 공부 자료 목록` in front.

The model keeps the program's shape:

| file | module | what it holds |
|---|---|---|
| `wrappers.dfy` | `Wrappers` | `Option`, for the `None` defaults |
| `pystr.dfy` | `PyStr` | the `str` and `os.path` operations the script uses: `replace`, `lstrip`, `split`, `join`, `startswith`/`endswith`, `title` (ASCII case mapping), `os.path.splitext`, `os.path.join` (POSIX), and code-point string order |
| `pysorted.dfy` | `PySorted` | `sorted(..., key=...)` as a stable insertion sort, with its three promises proved: ordered, a permutation, stable |
| `walkfilter.dfy` | `WalkFilter` | per-triple work of lines 13-47 and 58-60: defaults, pruning, file selection, path components, stored paths |
| `studytree.dfy` | `StudyTree` | the nested dictionary, node creation along a path (lines 50-54), appending a record at a path (lines 67-74) |
| `render.dfy` | `Render` | `build_markdown` (lines 77-109): the spec function `Markdown`, a flattened reference `Outline`, and the imperative `BuildMarkdown` proved equal to `Markdown` |
| `studylinks.dfy` | `StudyLinks` | the walk loop and final assembly: spec functions `BuildStructure`/`Document`, and the imperative `GenerateStudyLinks` proved equal to them |

Design choices:

- A Python dict is a sequence of `Child(name, node)` entries in insertion
  order, which is the order Python keeps. `IsDict` says the keys are
  distinct at every level, and the model proves that every operation keeps
  this true.
- The directory walk is an input: the sequence of
  `(dirpath, dirnames, filenames)` triples `os.walk` yields.
  `GenerateStudyLinks` also returns, per triple, the pruned `dirnames` list
  that the source writes back into the walk.
- The script mutates the nested dictionary through a cursor. The model makes
  each of those loops a functional update of the whole structure: `EnsurePath`
  for lines 50-54 and `AppendAt` for lines 67-74. The loop over the files
  (lines 57-74) and the walk loop (lines 22-74) are `for` loops in methods
  that update a `structure` variable.
- The string operations are stated by what Python promises, not by how
  CPython computes them.

## Model

| member | source | states |
|---|---|---|
| WalkFilter.PruneDirs | update_readme.py:24-26 | a name is kept iff it was listed, is not excluded and does not start with `.`; kept names keep their multiplicity and their relative order |
| WalkFilter.RelevantFiles | update_readme.py:30-32 | a file is kept iff it was listed, ends with one of the extensions, and is not `README.md`; kept names keep their multiplicity and order; an empty extension list keeps nothing |
| WalkFilter.PathParts | update_readme.py:39-47 | the components are empty exactly when the path is only dots, slashes and backslashes (so a walk from `.` skips its own root); otherwise they join with `/` back to the normalised path, contain no separator, and the first is non-empty and does not start with `.` |
| WalkFilter.WalkedPathParts | update_readme.py:39-47 | for a path made of any run of `.` and `/` followed by `c1/.../cn`, the components are exactly `c1 ... cn` |
| WalkFilter.StoredPath | update_readme.py:58-60 | the stored path has no backslash; it is the joined path with backslashes turned into `/`, minus exactly one leading `./` when present |
| WalkFilter.WalkedStoredPath | update_readme.py:58-60 | a file in the walked directory `./c1/.../cn` is stored as `c1/.../cn/filename` |
| StudyTree.IndexOf | update_readme.py:52 | the position of the first entry with the key, or -1 exactly when the key is missing |
| StudyTree.EnsurePathSpec | update_readme.py:50-54 | after insertion a node is present at `q` iff it was before or `q` is a non-empty prefix of the path; no node's files change |
| StudyTree.EnsurePathIsDict | update_readme.py:50-54 | insertion keeps every dictionary's keys distinct |
| StudyTree.EnsurePathExisting | update_readme.py:50-54 | when every prefix of the path is already present, insertion changes nothing |
| StudyTree.EnsurePathIdempotent | update_readme.py:50-54 | inserting the same path twice equals inserting it once |
| StudyTree.AppendAtSpec | update_readme.py:67-74 | appending keeps the set of nodes and adds the record at the end of the files at the path, and only there |
| StudyTree.AppendAtIsDict | update_readme.py:67-74 | appending keeps every dictionary's keys distinct |
| StudyTree.AddFilesSpec | update_readme.py:57-74 | appending the records in turn keeps the set of nodes; the files at the path gain exactly the records, in order; no other node's files change; keys stay distinct |
| StudyLinks.Descend | update_readme.py:62-64 | the walk down the path cannot fail and yields the `dirs` of the node at the path; its result is discarded |
| StudyLinks.PlaceFiles | update_readme.py:57-74 | the loop over the files leaves the structure equal to appending each file's record, in order, at the path |
| StudyLinks.VisitEntry | update_readme.py:23-74 | one walk iteration leaves the structure equal to `AddEntry` and returns the pruned `dirnames` |
| StudyLinks.GenerateStudyLinks | update_readme.py:5-112 | the returned string equals `Document(walk, extensions)`; `None` arguments take the default lists and explicit ones are used as given; the returned pruned list of each triple is `PruneDirs` of its `dirnames` |
| StudyLinks.AddEntrySpec | update_readme.py:30-74 | one triple adds a node at every prefix of its components when it has listed files and its path is not made only of dots, slashes and backslashes, and appends its records at its components only |
| StudyLinks.StructureContents | update_readme.py:22-74 | the structure built from the walk has a node at `q` iff some contributing directory's components start with `q`; the files at `q` are the records of the directories splitting into `q`, in walk order; its dictionaries have distinct keys |
| StudyLinks.ReachedSome | update_readme.py:22-54 | the fold over the walk reaches `q` iff some triple reaches it |
| StudyLinks.ListedRecords | update_readme.py:30-72 | every record at `q` names a file with an allowed extension that is not `README.md`, listed in a walked directory splitting into `q`, stored under that directory's derived path |
| StudyLinks.StructureEmpty | update_readme.py:35-47 | the structure is empty iff no triple has listed files in a directory whose path is not made only of dots, slashes and backslashes |
| StudyLinks.DocumentHeaderOnly | update_readme.py:111-112 | the output is exactly the title followed by `\n` iff no triple has listed files in a directory whose path is not made only of dots, slashes and backslashes |
| StudyLinks.ExplicitNoExtensions | update_readme.py:16-17 | an explicit empty extension list is not replaced by the defaults, so the output is the title and `\n` only |
| StudyLinks.PrunedListsAt | update_readme.py:24-26 | the per-triple pruned lists are `PruneDirs` of each triple's `dirnames`, one per triple |
| Render.AppendLinks | update_readme.py:94-100 | the inner loop appends one link line per file, in order |
| Render.AppendDir | update_readme.py:83-107 | one outer iteration appends the directory's block: heading, sorted file links, the nested rendering when it has subdirectories, and a blank line |
| Render.BuildMarkdown | update_readme.py:77-109 | the returned string equals `Markdown(d, level)` |
| Render.MarkdownIsOutline | update_readme.py:77-109 | the nested rendering equals the flat outline joined by newlines: for each key in sorted order, its heading, its file links, its subtree's outline one level deeper, and a blank line |
| Render.MarkdownEmpty | update_readme.py:77-109 | the rendering is the empty string iff the dictionary is empty |
| PySorted.SortByProperties | update_readme.py:93 | `sorted` returns its input ordered by key, as a permutation, keeping equal keys in input order |
| PySorted.SortBySorted | update_readme.py:93 | sorting an ordered sequence returns it unchanged |
| PySorted.SortStrings | update_readme.py:82 | the sorted keys are ordered, are a permutation of the keys, and have the same members |
| PyStr.Split | update_readme.py:39 | `split` gives one more piece than separators, no piece contains the separator, and joining gives the string back |
| PyStr.SplitJoin | update_readme.py:39 | splitting a join of separator-free pieces gives the pieces back |
| PyStr.LStrip | update_readme.py:39 | `lstrip` returns a suffix, everything it dropped is in the strip set, and what is left does not begin with one |
| PyStr.ReplaceSplitJoin | update_readme.py:96 | replacing a character by a string of any length (a space by `%20` in a link target) gives the pieces between its occurrences joined by the replacement |
| PyStr.ReplaceChar | update_readme.py:39 | after replacing, the target no longer occurs (when the replacement does not contain it); nothing changes without it; a one-character replacement maps position by position |
| PyStr.TitleAt | update_readme.py:86 | `title` upper-cases a letter that begins a word, lower-cases a letter inside a word, and leaves other characters |
| PyStr.TitleIdempotent | update_readme.py:86 | title-casing twice equals title-casing once |
| PyStr.SplitExt | update_readme.py:95 | stem and extension concatenate to the name; the extension is empty or one dot followed by no dot or slash; a name without a dot has no extension |
| PyStr.SplitExtName | update_readme.py:95 | `stem + ext` splits into `stem` and `ext` when the stem has a non-dot character, and has no extension when the stem is all dots |
| PyStr.PathJoin | update_readme.py:58 | an absolute second part wins; when the first part is empty or ends with `/` the parts are concatenated; otherwise a single `/` joins them; the result ends with the second part |
| PyStr.LeTotal | update_readme.py:82 | string order is total |
| PyStr.LeTransitive | update_readme.py:82 | string order is transitive |
| PyStr.LeAntisymmetric | update_readme.py:82 | string order is antisymmetric |

## Left out

- `root_dir` (default `"."`): it only chooses where the directory walk starts, so it is absorbed into the walk input. Its directory is skipped only when its path is made only of dots, slashes and backslashes; with `root_dir="docs"` its own files are listed under `## Docs`; `PathParts` decides this in the model as in the source.
- `os.walk` and the file system: the walk is the input sequence of triples. The effect of the `dirnames[:]` reassignment on which directories the walk then visits is not modelled. The model returns the pruned lists instead.
- `update_readme` (lines 116-128): opening and writing `README.md`, and its console message.
- The debug `print` of the structure as JSON inside `build_markdown` (line 79): it does not affect the result.
- Cursor aliasing into the nested dictionaries (lines 50-54, 62-74): each cursor loop is a functional update of the whole structure. The aliasing itself is not modelled.
- PyStr.Title: models ASCII case mapping only. Every character outside ASCII is treated as uncased, which is right for Hangul but not for accented Latin letters.
- PyStr.Le: compares strings by Dafny `char` values, i.e. Unicode scalar values, which is Python's code-point order on those. A Python `str` from the walk can also hold lone surrogates (undecodable file names under `surrogateescape`); a Dafny `char` cannot represent them, so such names are not modelled.
- PyStr.PathJoin: models the POSIX `os.path.join` only. The Windows flavour, which also treats `\` as a separator and knows drive letters, is not modelled. Backslashes are handled only by the later `replace`.
- PyStr.SplitExt: is stated for `/` as the only separator (POSIX `os.path.splitext`).
- The repository's data-structure study files are not part of this model.
