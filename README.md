# A verified model of the `edit` workspace and import-graph core

`edit` is a source editor for Python projects. This project models four
parts of it in Dafny:

- A **path** (`workspace/path.py`) is a canonical absolute location plus
  the workspace root it was created against. It has a relative view (`rel`),
  the shorter of the two (`shortest`), a basename, an ordering and an
  abbreviation for display.
- A **workspace** (`workspace/workspace.py`) is a directory holding a JSON
  `config`. It also holds a root directory (by default the workspace
  directory's parent) and the set of files found below that root. Listeners
  are told what was removed and added on every rescan. Accessors read the
  configured search path, excluded names, open files, editor options and
  symbol index location. Setters write the config back.
- A **Python file** (`graph/py_file.py`) is a vertex of the dependency
  graph. Its import statements are collected into names, resolved to files,
  and linked as `import` edges to the other vertices.
- An **edge** (`graph/edge.py`) is an immutable (type, source, dest) triple
  over four textual edge types.

Modules:

| module | file | models |
|---|---|---|
| `Wrappers` | `wrappers.dfy` | `Option` and `Result` |
| `Paths` | `paths.dfy` | `workspace/path.py` and the `os.path` functions it uses (lexical) |
| `Edges` | `edge.dfy` | `graph/edge.py` |
| `FileSystem` | `filesystem.dfy` | an abstract disk: a tree of directories whose files hold JSON |
| `Workspaces` | `workspace.dfy` | `workspace/workspace.py` |
| `PyFiles` | `py_file.dfy` | `graph/py_file.py` |

Parameters stand in for the outside world:

- The operating system is the value `disk: Node`. Writes return the new disk.
- The process working directory is the string `cwd`.
- The parsed syntax tree of a file is a sequence of import statements, or
  `None` for a syntax error.
- The import resolver is a function parameter `Resolver`.
- Listeners are identities; each call to them is recorded in
  `Workspace.calls`.
- Logging is modelled as a returned list (`PyFile.Load`) or a predicate
  (`LoadConfigLogs`).

## Model

| member | source | states |
|---|---|---|
| Paths.Split | workspace/path.py:20-23 | splitting on the separator always yields at least one piece |
| Paths.SplitSepFree | workspace/path.py:20-23 | no piece of a split contains the separator |
| Paths.JoinSplit | workspace/path.py:20-23 | joining the pieces of a split with the separator gives the original text back |
| Paths.SplitJoin | workspace/path.py:20-23 | splitting a join of separator-free pieces gives those pieces back |
| Paths.SplitAppend | workspace/path.py:20-23 | splitting `x/y` is the split of `x` followed by the split of `y` |
| Paths.Resolve | workspace/path.py:20-23 | resolving plain names with `.`, `..` and empty names only ever yields plain names |
| Paths.ResolveAppend | workspace/path.py:20-23 | resolving two runs of names in turn is resolving their concatenation |
| Paths.ResolvePlain | workspace/path.py:20-23 | plain names are appended unchanged |
| Paths.ResolveDots | workspace/path.py:20-23 | `k` parent steps drop exactly the last `k` names |
| Paths.Segments | workspace/path.py:20-23 | the canonical names of any input are plain (never empty, `.` or `..`) |
| Paths.Realpath | workspace/path.py:21-23 | realpath always yields a canonical absolute path |
| Paths.CanonicalFixpoint | workspace/path.py:21-23 | a canonical path is its own realpath, and its names are its pieces after the leading `/` |
| Paths.RealpathIdempotent | workspace/path.py:21-23 | applying realpath twice is the same as applying it once |
| Paths.SegmentsOfRealpath | workspace/path.py:21-23 | a path and its realpath have the same canonical names |
| Paths.SegmentsAfterSep | workspace/path.py:21-23 | the names after a `/` are resolved from the canonical names of what precedes it |
| Paths.TrailingSeparator | workspace/path.py:21-23 | a trailing `/` does not change the realpath |
| Paths.CurrentDirSegment | workspace/path.py:21-23 | a `.` component does not change the realpath |
| Paths.ParentDirSegment | workspace/path.py:21-23 | `x/..` cancels for a plain name `x` |
| Paths.JoinSegments | workspace/path.py:23 | joining a relative name onto a directory resolves that name's pieces from the directory's canonical names |
| Paths.Basename | workspace/path.py:63-65 | the basename holds no separator, ends the text, and is preceded by a separator when shorter than the text |
| Paths.BasenameOfJoinAbs | workspace/path.py:63-65 | the basename of a canonical path is its last name |
| Paths.DirnameOfJoinAbs | workspace/workspace.py:96-99 | the dirname of a canonical path is the canonical path of all but its last name |
| Paths.ParentOfCanonical | workspace/workspace.py:96-99 | for a canonical path other than `/`: the basename is plain, the dirname is canonical, and joining them gives the path back |
| Paths.Create | workspace/path.py:18-24 | the constructor keeps the root and always stores a canonical `abs` |
| Paths.CreateResolvesAgainstRoot | workspace/path.py:18-24 | an absolute input is canonicalised as is; a relative one is resolved from the root's names |
| Paths.CreateCanonical | workspace/path.py:18-24 | an input that is already canonical is stored unchanged |
| Paths.LexTrichotomy | workspace/path.py:33-46 | string order is total and strict: exactly one of less, equal and greater holds |
| Paths.LexTransitive | workspace/path.py:33-46 | string order is transitive |
| Paths.OrderingComparesAbs | workspace/path.py:33-46 | `<`, `<=`, `>`, `>=` compare `abs` only; `>` and `>=` mirror `<` and `<=`; `<` is irreflexive and transitive |
| Paths.SameAbsDifferentRoot | workspace/path.py:29-46 | two paths with equal `abs` and different roots are unequal, yet neither is less than the other |
| Paths.CommonPrefixLen | workspace/path.py:51-53 | the common part of two name lists is a shared prefix and is maximal |
| Paths.ResolveRelNames | workspace/path.py:51-53 | the names of `relpath` lead from the root's names back to the target's names, and are empty only when the two coincide |
| Paths.RelPieces | workspace/path.py:51-53 | `rel` is non-empty and relative, and its pieces resolve like the names of `relpath` |
| Paths.RelRoundTrip | workspace/path.py:51-53 | re-creating a path from its `rel` against its own root gives back the same path |
| Paths.RelOfCreate | workspace/path.py:51-53 | the `rel` of a path created from a relative name of plain names is that name |
| Paths.Shortest | workspace/path.py:55-57 | `shortest` is `rel` or `abs`, no longer than either, and `abs` on a tie |
| Paths.InWorkspaceAcceptsSibling | workspace/path.py:59-61 | as written, `/x/yz` counts as inside the root `/x/y` (for plain names `x`, `y` and a non-empty `z`, e.g. `/foo/barbaz` against `/foo/bar`) although it does not lie under it |
| Paths.UnderRootIffNoParentStep | workspace/path.py:59-61 | a path lies under its root exactly when its `rel` takes no `..` step |
| Paths.CreatedBelowRoot | workspace/path.py:59-61 | a path created from a relative name of plain names lies under its canonical root, by both tests |
| Paths.SuffixBudget | workspace/path.py:88-91 | the suffix kept is at least two thirds of the budget, and at least the basename when it is required |
| Paths.Elide | workspace/path.py:96 | the result is the prefix, then `..`, then the suffix, and its length is their sum |
| Paths.AbbreviateText | workspace/path.py:79-96 | text that fits is unchanged; otherwise the result has exactly the maximum length, or is the marker plus the basename when the basename is longer |
| Paths.AbbreviateShape | workspace/path.py:88-96 | an elided result is a prefix of the text, the marker `..`, and the text's last characters |
| Paths.AbbreviateKeepsBasename | workspace/path.py:89-91 | with `require_basename`, the result always ends with the whole basename |
| Paths.AbbreviateClampedPrefix | workspace/path.py:92-95 | when the basename leaves no room, the prefix is clamped to empty and only the marker and the basename remain |
| Paths.Abbreviate | workspace/path.py:71-96 | `abbreviate` returns `shortest` when it fits, and never exceeds the larger of the budget and the basename plus the marker |
| Paths.AbbreviateRelShorter | workspace/path.py:101-103 | a name directly below the root is abbreviated to that name |
| Paths.ShortestOfUnrelated | workspace/path.py:55-57 | a path sharing no first name with its root has a `rel` that climbs to `/` and spells out `abs`, so `shortest` is `abs` |
| Paths.AbbreviateTextKeepsTwoNames | workspace/path.py:79-96 | at budget 16, a text ending in two names ten characters long keeps its first four characters, the marker and those two names |
| Paths.AbbreviateFromUnrelatedRoot | workspace/path.py:71-96 | a path created against an unrelated root and ending in two such names abbreviates to its first four characters, `..` and those names |
| Paths.AbbreviateExampleLongPath | workspace/path.py:109-111 | `/this/isareally/very/annoyingly/perversely/even/path` created against the root `foo` and seen from `/` abbreviates to `/thi../even/path` at budget 16 |
| Paths.AbbreviateLongName | workspace/path.py:113-116 | when the basename alone is too long for the budget, the result is `..` and the basename |
| Paths.AbbreviateExampleLongBasename | workspace/path.py:113-116 | `/foo/this_is_a_very_long_basename` created against the root `/bar` abbreviates at budget 16 to `..this_is_a_very_long_basename`, from any working directory |
| Edges.Tag | graph/edge.py:12-16 | every edge type has a non-empty tag that names it back |
| Edges.FromTag | graph/edge.py:12-16 | exactly the four tags `import`, `declare`, `refer` and `call` name an edge type |
| Edges.TagsDistinct | graph/edge.py:12-16 | two edge types share a tag only when they are the same type |
| Edges.TagRoundTrip | graph/edge.py:12-16 | a tag that names an edge type is that type's own tag |
| Edges.EdgeIdentity | graph/edge.py:18 | edges are equal exactly when their three fields are, so re-adding an equal edge leaves a set unchanged |
| FileSystem.Lookup | workspace/workspace.py:22 | the empty name list reaches the start, and a longer one can only pass through directories |
| FileSystem.LookupAppend | workspace/workspace.py:63-69 | looking up `a + b` is looking up `b` from what `a` reaches |
| FileSystem.MakeDirs | workspace/workspace.py:24 | a successful `makedirs` leaves a directory at the top (an already existing directory counts as success, unlike `os.makedirs`) |
| FileSystem.MakeDirsCreates | workspace/workspace.py:24 | after a successful `makedirs` the whole path is a directory |
| FileSystem.MakeDirsFails | workspace/workspace.py:24 | `makedirs` fails exactly when an entry along the path is a file |
| FileSystem.MakeDirsElsewhere | workspace/workspace.py:24 | `makedirs` changes no entry except the directories along its own path: entries beside the path at any depth and entries below its end read as before |
| FileSystem.PutThenLookup | workspace/workspace.py:80-82 | a successful write is read back as written |
| FileSystem.PutSucceeds | workspace/workspace.py:80-84 | a write succeeds exactly when the directory exists and the entry is not itself a directory |
| Workspaces.InitializeWorkspaceOutcome | workspace/workspace.py:18-24 | an existing path is refused; otherwise creation succeeds exactly when no file stands along the path, and then the path is a directory |
| Workspaces.ConfigPathSegments | workspace/workspace.py:63 | the config file's names are the workspace directory's names followed by `config` |
| Workspaces.WriteConfigNeedsDir | workspace/workspace.py:74-78 | saving without a workspace directory leaves the disk untouched and never creates the directory; saving never removes an existing one |
| Workspaces.WriteThenLoad | workspace/workspace.py:62-84 | a config saved into an existing workspace directory loads back unchanged |
| Workspaces.StringsJson | workspace/workspace.py:91-93 | the stored JSON array is a list of strings of the same length |
| Workspaces.StringsRoundTrip | workspace/workspace.py:91-93 | decoding the stored array gives the strings back |
| Workspaces.StringListDefaults | workspace/workspace.py:106-112 | a missing list reads as empty, and a stored list reads back as stored |
| Workspaces.RootDirDefault | workspace/workspace.py:96-99 | without a configured root, the root is the workspace directory's canonical parent, with the workspace directory one name below it |
| Workspaces.RootDirSet | workspace/workspace.py:101-104 | the root set by the setter is the root read back |
| Workspaces.EditorOptionsMerge | workspace/workspace.py:114-130 | the options hold every default key plus every configured key; a configured value wins; every other default is kept |
| Workspaces.EditorOptionsCount | workspace/workspace.py:114-130 | overriding only default keys leaves exactly ten options |
| Workspaces.EditorDefaultsCount | workspace/workspace.py:117-128 | there are ten defaults |
| Workspaces.EditorOptionsOverrideExample | workspace/workspace.py:242-249 | overriding `indent-width` with 42 gives 42, keeps `auto-indent` true, and leaves ten options |
| Workspaces.OpenFilesRoundTrip | workspace/workspace.py:86-94 | open files stored under the current root read back as the same paths in the same order |
| Workspaces.OpenFilesRel | workspace/workspace.py:86-89 | each stored relative name reads back as a path whose `rel` is that name |
| Workspaces.SymbolIndexLocation | workspace/workspace.py:132-134 | the symbol index is `index.db` directly inside the workspace directory, under the workspace's root |
| Workspaces.BelowAddKey | workspace/workspace.py:44-54 | walking one more entry adds that entry and what lies below it, when it is visible |
| Workspaces.WalkExactly | workspace/workspace.py:44-54 | the walk finds exactly the entries reached through visible names only: nothing hidden, nothing excluded, nothing below either |
| Workspaces.WalkTree | workspace/workspace.py:44-54 | the recursive traversal, which prunes invisible directories before descending, finds exactly the walk's entries |
| Workspaces.WalkExample | workspace/workspace.py:184-213 | with `dir2` excluded, `foo`, `dir1` and `dir1/file1` are found, while `dir2`, `.hidden` and everything below them are not |
| Workspaces.EntryPathIsCreate | workspace/workspace.py:53-54 | the path recorded for an entry is the path created from its relative name, and its `rel` is that name |
| Workspaces.WalkPlain | workspace/workspace.py:44-54 | every name the walk reports on a well-formed disk is plain |
| Workspaces.ScanFilesExactly | workspace/workspace.py:39-54 | a path is among the files exactly when the root is not empty and the path names an existing entry below the root reached through visible names |
| Workspaces.Notifications | workspace/workspace.py:59-60 | one call per listener, in registration order, each with the same removed and added sets |
| Workspaces.FileChanges | workspace/workspace.py:56-58 | the removed and added sets are disjoint, turn the old files into the new ones, and are both empty exactly when nothing changed |
| Workspaces.Workspace.constructor | workspace/workspace.py:27-31 | a new workspace starts with no files, no listeners and the given config |
| Workspaces.Workspace.Open | workspace/workspace.py:27-37 | a required but missing directory fails; an undecodable config fails; otherwise the config is loaded, the file list scanned (empty for an empty root), and no listener is registered |
| Workspaces.Workspace.AddListener | workspace/workspace.py:30 | a listener is registered after the existing ones |
| Workspaces.Workspace.ReloadFileList | workspace/workspace.py:39-60 | the files become the scan of the root (nothing for an empty root), and every listener is called once, in order, with the removed and the added paths |
| Workspaces.Workspace.NotifyListeners | workspace/workspace.py:59-60 | each listener, in order, is called once with the removed and the added paths |
| Workspaces.Workspace.SetOpenFiles | workspace/workspace.py:91-94 | the config stores each path's `rel` under `open_files`, then the config is saved |
| Workspaces.Workspace.SetRootDir | workspace/workspace.py:101-104 | the config stores the new root, then the config is saved |
| PyFiles.ItemNamesMembership | graph/py_file.py:42-48 | a name is collected for a statement's listed names exactly when one of those names yields it |
| PyFiles.StmtNamesMembership | graph/py_file.py:41-49 | a statement yields a name as a module exactly when it imports it, and as a possible attribute exactly when it is `module.name` of a from-import |
| PyFiles.ParsedModulesMembership | graph/py_file.py:39-49 | a name is collected as a module exactly when some statement imports it as one |
| PyFiles.ParsedAttributesMembership | graph/py_file.py:39-49 | a name is collected as a possible attribute exactly when some from-import names it |
| PyFiles.ImportFormsExample | graph/py_file.py:41-49 | `import a, b` gives `a` and `b`; `from m import x, y` gives `m`, then `m.x` and `m.y` flagged as possible attributes |
| PyFiles.AppendStmtNames | graph/py_file.py:42-49 | the inner loop appends exactly one statement's names, in order |
| PyFiles.CollectImportNames | graph/py_file.py:39-49 | the collecting loop yields every statement's names in walk order |
| PyFiles.ResolvedFilesMembership | graph/py_file.py:51-58 | a file is resolved exactly when some collected name resolves to a set holding it |
| PyFiles.LoggedFailuresMembership | graph/py_file.py:59-65 | a failure is logged exactly for a name that fails and must be a module |
| PyFiles.ImportPathsUnion | graph/py_file.py:56-58 | adding one name's files adds exactly their paths |
| PyFiles.ResolveAll | graph/py_file.py:51-67 | the resolution loop yields the paths of all resolved files and logs the failures that must be modules |
| PyFiles.FindChain | graph/py_file.py:101-103 | a successful resolution of a non-empty dotted name yields at least one file |
| PyFiles.SplitDotted | graph/py_file.py:48-49 | a dotted name of two or three dot-free parts splits into those parts |
| PyFiles.ChainRootPkgMod | graph/py_file.py:121-128 | in the test finder table, `root.pkg.mod` resolves to both package initialisers and the module |
| PyFiles.ChainRootPkgClassy | graph/py_file.py:144-149 | in the test finder table, `root.pkg.Classy` fails to resolve |
| PyFiles.ResolveOne | graph/py_file.py:51-65 | for a single name, the files are that name's files, and a failure is logged only for a module |
| PyFiles.ResolveTwo | graph/py_file.py:51-65 | for two names, the files are the union of theirs, and the failures are logged in order |
| PyFiles.ImportModuleExample | graph/py_file.py:121-128 | `import root.pkg.mod` resolves to `/root/__init__.py`, `/root/pkg/__init__.py` and `/root/pkg/mod.py`, with nothing logged |
| PyFiles.FromImportAttributeExample | graph/py_file.py:144-149 | `from root.pkg import Classy` resolves to the two initialisers only, and the failed attribute is not logged |
| PyFiles.FromImportModuleExample | graph/py_file.py:151-156 | `from root.pkg import mod` resolves to both initialisers and the module |
| PyFiles.LinkEdgesExactly | graph/py_file.py:69-78 | every link is an `import` edge from the file to the vertex of one of its imports, and every such vertex gets one |
| PyFiles.LinkAddPresent | graph/py_file.py:69-78 | an import with a vertex adds exactly one edge, to that vertex |
| PyFiles.LinkSkipsAbsent | graph/py_file.py:71-75 | an import with no vertex in the graph adds no edge |
| PyFiles.LinkExample | graph/py_file.py:69-78 | a file importing one vertex and one non-vertex gets exactly one edge |
| PyFiles.PyFile.constructor | graph/py_file.py:19-29 | a new file starts with no edges; its imports are empty when it is not loaded or does not parse, and the resolved imports otherwise |
| PyFiles.PyFile.Load | graph/py_file.py:31-67 | a syntax error leaves the imports unchanged and resolves nothing; otherwise the imports become the resolved paths and the failures of module names are logged |
| PyFiles.PyFile.Visit | graph/py_file.py:69-78 | the file's outgoing edges gain exactly the links; each vertex's incoming edges gain exactly the links that end at it; nothing else changes |
| PyFiles.ClassifySource | graph/py_file.py:80-89 | only existing files ending in `.py` are Python sources; an existing `.pyc` file is recognised as compiled |
| PyFiles.NewFile | graph/py_file.py:80-89 | a vertex is made exactly for an existing `.py` file, fresh, with no edges, and loaded unless external |

## Left out

- Symbolic links are not modelled. `os.path.realpath` and `os.path.abspath` are both modelled lexically: `.` and empty names vanish, and `..` drops a name (at `/` it stays). The lexical rule is what `abspath` does, and what `realpath` does on a tree without links, with one difference: `abspath` keeps a leading pair of separators (`//ws` stays `//ws`), while the model, like `realpath`, collapses them to one. So for the workspace directory `//ws` (`workspace/workspace.py:28` uses `abspath`) the source's default root is `//` and the model's is `/`.
- The process working directory, the disk, the parsed syntax tree and the import finder are parameters, not calls into the operating system, `ast` or `imp`.
- `Path.__hash__` (`workspace/path.py:48-49`) is left out. Dafny datatype equality is structural, and the hash only has to agree with `__eq__`.
- `Path.__repr__` and `Path.isdir` are left out: one is display text, the other an operating-system query.
- Paths.Abbreviate: the suffix budget `int(max_len * 2 / 3)` is computed with exact integer division rather than floating point. The two agree on every budget a display uses; rounding of very large floats is not modelled.
- Paths.Abbreviate: the assertion `max_len >= 16` is modelled as a precondition rather than as an `AssertionError`.
- Paths.AbbreviateExampleLongPath: the test's path has the relative root `foo`, so its `rel` depends on the working directory. The lemma fixes the working directory to `/`. Other working directories whose names start with `this` are not covered; for one equal to the path itself, `rel` is `..` and the result differs.
- The config file's text is not modelled: JSON encoding, `indent=4` and the exact bytes written. A file holds an already decoded JSON value, or `None` when it does not decode. Numbers are integers.
- Workspaces.LoadConfig: the source assigns whatever JSON the file holds. The model rejects text that is not JSON (where the source raises) and also JSON that is not an object (where the source fails only later, at the first `config.get`), both as `InvalidConfig`.
- Configured values of the wrong JSON type (a `root_dir` that is not a string, `python_path` entries that are not strings) read as the default in the model. In the source they are returned as they are.
- Logging is not modelled as output. `_load_config` logging is the predicate `LoadConfigLogs`; resolution failures are the list that `PyFile.Load` returns; `_write_config` logging is just "the disk is unchanged".
- `get_stylesheet` (`workspace/workspace.py:136-145`) is left out: it only reads bytes from a file.
- Listeners are identities (`nat`), and each call is recorded in `Workspace.calls`. A listener that raises, or that changes the workspace during the call, is not modelled.
- `os.walk` ordering and its `onerror` behaviour are not modelled: the files are a set, and an unreadable directory is not represented. A walk from the empty root, which finds nothing because listing `''` fails, is modelled. Entries are files or directories; other kinds of entry are not represented.
- `initialize_workspace` reports failure as a `Result` rather than raising.
- Workspaces.ScanFiles: the root is looked up on its lexically resolved names, while `os.walk` opens the raw `root_dir` text. For a configured root such as `/x/a/../b` where `/x/a` is missing or is a file, the operating system cannot open the text and `os.walk` drops the error, so the source finds no files; the model walks `/x/b` and reports its entries. `ScanFilesExactly`, `Workspace.Open` and `Workspace.ReloadFileList` inherit this.
- Workspaces.InitializeWorkspace: `os.path.exists` and `os.makedirs` are modelled on the lexically resolved names of the path, not on its raw text. The source's `makedirs` walks the raw text, so for `/x/a/../b` with `/x/a` missing it also creates `/x/a`; the model creates only `/x/b`. When `/x/b` already exists there, the model refuses with `AlreadyExists` and leaves the disk alone, while the source creates `/x/a` and then fails in `mkdir`. A path whose `..` passes through a file is likewise refused by the operating system but accepted by the model.
- Relative imports (`from . import x`, where the module is `None`) are not modelled: a `FromImport` always names its module.
- The `as` aliases of an import do not affect the collected names, and are not represented.
- `resolve_import` and `make_finder` (`graph/parsers/python3.py`) are not part of this model. Resolution is the `Resolver` parameter. The table resolver `TableResolver` follows the finder table of the tests and ignores the search path.
- The `functions`, `classes` and `calls` fields of `PyFile`, and `self.functions = []` in `_load`, are left out: nothing in this part of the program fills them.
- `source_graph.find_file` is modelled as a map from path to vertex. A vertex that Python treats as false is not modelled.
- PyFiles.NewFile: the "Unrecognized file type" debug log is not modelled. That case returns `None` like the others.

## Findings

| source | as written | input that shows it | evidently intended | confidence | as-written member | corrected member |
|---|---|---|---|---|---|---|
| workspace/path.py:59-61 | `in_workspace` tests whether the text of `abs` starts with the text of `ws_root` | `Path('/foo/barbaz', '/foo/bar')` counts as in the workspace, though `/foo/barbaz` is a sibling of `/foo/bar` | a path is in the workspace when the root's names are a prefix of the path's names, i.e. its `rel` takes no `..` step | medium, not executed | Paths.InWorkspaceAcceptsSibling | Paths.UnderRootIffNoParentStep |
