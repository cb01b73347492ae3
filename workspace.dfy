/**
 * A workspace: a directory holding a JSON `config`, the root of the
 * source tree it indexes (by default the workspace directory's parent),
 * the set of files found under that root, and listeners told about every
 * change to that set.
 */
module Workspaces {
  import opened Wrappers
  import opened Paths
  import opened FileSystem

  /** The decoded `config` file: a JSON object. */
  type Config = map<string, Json>

  datatype WsError =
    | AlreadyExists
    | CannotCreate(cause: FsError)
    | NoWorkspaceDir
    | InvalidConfig

  const ConfigName: string := "config"
  const IndexName: string := "index.db"

  // ---------------------------------------------------- initialize_workspace

  /** `initialize_workspace(path)`: refuses an existing path, otherwise `makedirs`. */
  function InitializeWorkspace(disk: Node, path: string, cwd: string): (r: Result<Node, WsError>)
  {
    if Exists(disk, path, cwd) then Err(AlreadyExists)
    else match MakeDirs(disk, Segments(path, cwd))
      case Err(e) => Err(CannotCreate(e))
      case Ok(d) => Ok(d)
  }

  /**
   * An existing path is refused; otherwise the directory is created,
   * which succeeds unless a file stands somewhere along the path.
   */
  lemma InitializeWorkspaceOutcome(disk: Node, path: string, cwd: string)
    ensures Exists(disk, path, cwd) ==> InitializeWorkspace(disk, path, cwd) == Err(AlreadyExists)
    ensures InitializeWorkspace(disk, path, cwd).Ok? ==> IsDir(InitializeWorkspace(disk, path, cwd).value, path, cwd)
    ensures !Exists(disk, path, cwd) ==>
      (InitializeWorkspace(disk, path, cwd).Ok? <==> !BlockedByFile(disk, Segments(path, cwd)))
  {
    var names := Segments(path, cwd);
    MakeDirsFails(disk, names);
    if InitializeWorkspace(disk, path, cwd).Ok? {
      MakeDirsCreates(disk, names);
    }
  }

  /** Some entry along `names` (the last one included) is a file. */
  predicate BlockedByFile(disk: Node, names: seq<string>) {
    exists k :: 0 <= k <= |names| && Lookup(disk, names[..k]).Some? && Lookup(disk, names[..k]).value.File?
  }

  // ------------------------------------------------------------- config file

  /** The names of `join(workspace_dir, 'config')`. */
  lemma ConfigPathSegments(wsDir: string, cwd: string)
    ensures Segments(Join(wsDir, ConfigName), cwd) == Segments(wsDir, cwd) + [ConfigName]
  {
    JoinSegments(wsDir, ConfigName, cwd);
    SplitNoSep(ConfigName, Sep);
    ResolvePlain(Segments(wsDir, cwd), [ConfigName]);
  }

  /**
   * `_load_config`: no config file, or a config path that cannot be
   * opened, gives the empty config (a directory there is logged as an
   * error); text that is not JSON, or JSON that is not an object, makes
   * construction fail.
   */
  function LoadConfig(disk: Node, wsDir: string, cwd: string): (r: Result<Config, WsError>)
  {
    match Lookup(disk, Segments(Join(wsDir, ConfigName), cwd))
    case None => Ok(map[])
    case Some(Dir(_)) => Ok(map[])
    case Some(File(None)) => Err(InvalidConfig)
    case Some(File(Some(j))) => if j.JObject? then Ok(j.fields) else Err(InvalidConfig)
  }

  /** Whether `_load_config` logs an error: the config path exists but cannot be read as a file. */
  predicate LoadConfigLogs(disk: Node, wsDir: string, cwd: string) {
    var e := Lookup(disk, Segments(Join(wsDir, ConfigName), cwd));
    e.Some? && e.value.Dir?
  }

  /**
   * `_write_config`: nothing happens when the workspace directory is not a
   * directory; otherwise the config object is written to `config`, and a
   * failed write (a directory in its place) is logged and changes nothing.
   */
  function WriteConfig(disk: Node, wsDir: string, cwd: string, cfg: Config): (r: Node)
  {
    if !IsDir(disk, wsDir, cwd) then disk
    else match Put(disk, Segments(wsDir, cwd), ConfigName, Some(JObject(cfg)))
      case Ok(d) => d
      case Err(_) => disk
  }

  /**
   * Saving never creates the workspace directory (without it the disk is
   * untouched), and never removes it when it is there.
   */
  lemma WriteConfigNeedsDir(disk: Node, wsDir: string, cwd: string, cfg: Config)
    ensures !IsDir(disk, wsDir, cwd) ==> WriteConfig(disk, wsDir, cwd, cfg) == disk
    ensures Exists(disk, wsDir, cwd) ==> Exists(WriteConfig(disk, wsDir, cwd, cfg), wsDir, cwd)
  {
    var names := Segments(wsDir, cwd);
    if IsDir(disk, wsDir, cwd) {
      var w := Put(disk, names, ConfigName, Some(JObject(cfg)));
      if w.Ok? {
        PutThenLookup(disk, names, ConfigName, Some(JObject(cfg)));
        LookupAppend(w.value, names, [ConfigName]);
      }
    }
  }

  /** A config saved into an existing workspace directory loads back unchanged. */
  lemma WriteThenLoad(disk: Node, wsDir: string, cwd: string, cfg: Config)
    requires IsDir(disk, wsDir, cwd)
    requires !LoadConfigLogs(disk, wsDir, cwd)
    ensures LoadConfig(WriteConfig(disk, wsDir, cwd, cfg), wsDir, cwd) == Ok(cfg)
  {
    var names := Segments(wsDir, cwd);
    var content := Some(JObject(cfg));
    ConfigPathSegments(wsDir, cwd);
    LookupAppend(disk, names, [ConfigName]);
    PutSucceeds(disk, names, ConfigName, content);
    PutThenLookup(disk, names, ConfigName, content);
  }

  // ------------------------------------------------------------ accessors

  /** A JSON array of strings. */
  predicate IsStringList(j: Json) {
    j.JArray? && forall i | 0 <= i < |j.items| :: j.items[i].JStr?
  }

  function StringsOf(j: Json): seq<string>
    requires IsStringList(j)
  {
    seq(|j.items|, i requires 0 <= i < |j.items| => j.items[i].s)
  }

  /** The JSON array holding `xs`. */
  function StringsJson(xs: seq<string>): (j: Json)
    ensures IsStringList(j) && |j.items| == |xs|
  {
    JArray(seq(|xs|, i requires 0 <= i < |xs| => JStr(xs[i])))
  }

  /** Decoding the array of `xs` gives `xs` back. */
  lemma StringsRoundTrip(xs: seq<string>)
    ensures StringsOf(StringsJson(xs)) == xs
  {
  }

  /** `config.get(key, [])` for a list of strings. */
  function StringListOf(cfg: Config, key: string): seq<string>
  {
    if key in cfg && IsStringList(cfg[key]) then StringsOf(cfg[key]) else []
  }

  /** A missing key reads as the empty list; a stored list reads back as stored. */
  lemma StringListDefaults(cfg: Config, key: string, xs: seq<string>)
    ensures key !in cfg ==> StringListOf(cfg, key) == []
    ensures StringListOf(cfg[key := StringsJson(xs)], key) == xs
  {
    StringsRoundTrip(xs);
  }

  /** The `python_path` property. */
  function PythonPathOf(cfg: Config): seq<string> {
    StringListOf(cfg, "python_path")
  }

  /** The `exclude_files` property. */
  function ExcludeFilesOf(cfg: Config): seq<string> {
    StringListOf(cfg, "exclude_files")
  }

  /** The `root_dir` property: the configured root, else the workspace directory's parent. */
  function RootDirOf(cfg: Config, wsDir: string): string {
    if "root_dir" in cfg && cfg["root_dir"].JStr? then cfg["root_dir"].s else Dirname(wsDir)
  }

  /**
   * Without a configured root, the root is the parent directory of the
   * (canonical) workspace directory: canonical itself, with the workspace
   * directory's own name one level below it.
   */
  lemma RootDirDefault(cfg: Config, wsDir: string, cwd: string)
    requires "root_dir" !in cfg && IsCanonical(wsDir) && wsDir != [Sep]
    ensures IsCanonical(RootDirOf(cfg, wsDir))
    ensures Join(RootDirOf(cfg, wsDir), Basename(wsDir)) == wsDir
    ensures Segments(RootDirOf(cfg, wsDir), cwd) + [Basename(wsDir)] == Segments(wsDir, cwd)
  {
    ParentOfCanonical(wsDir, cwd);
  }

  /** The `root_dir` setter's update, read back. */
  lemma RootDirSet(cfg: Config, wsDir: string, root: string)
    ensures RootDirOf(cfg["root_dir" := JStr(root)], wsDir) == root
  {
  }

  /** The ten editor settings every workspace starts from. */
  const EditorDefaults: map<string, Json> := map[
    "style" := JStr("solarized-light"),
    "auto-indent" := JBool(true),
    "indent-width" := JNum(4),
    "tab-width" := JNum(4),
    "insert-spaces-instead-of-tabs" := JBool(true),
    "highlight-current-line" := JBool(true),
    "show-right-margin" := JBool(true),
    "right-margin-position" := JNum(80),
    "show-line-numbers" := JBool(true),
    "smart-backspace" := JBool(true)
  ]

  /** The configured `editor_options` object, if there is one. */
  function EditorOverrides(cfg: Config): map<string, Json> {
    if "editor_options" in cfg && cfg["editor_options"].JObject? then cfg["editor_options"].fields else map[]
  }

  /** The `editor_options` property: the defaults, updated key by key from the config. */
  function EditorOptionsOf(cfg: Config): map<string, Json> {
    EditorDefaults + EditorOverrides(cfg)
  }

  /** Every default key is present; a configured value wins, and every other key keeps its default. */
  lemma EditorOptionsMerge(cfg: Config, k: string)
    ensures EditorOptionsOf(cfg).Keys == EditorDefaults.Keys + EditorOverrides(cfg).Keys
    ensures k in EditorOverrides(cfg) ==> EditorOptionsOf(cfg)[k] == EditorOverrides(cfg)[k]
    ensures k !in EditorOverrides(cfg) && k in EditorDefaults ==> EditorOptionsOf(cfg)[k] == EditorDefaults[k]
  {
  }

  /** There are ten defaults, so overriding only default keys still gives ten options. */
  lemma EditorOptionsCount(cfg: Config)
    requires EditorOverrides(cfg).Keys <= EditorDefaults.Keys
    ensures |EditorOptionsOf(cfg)| == 10
  {
    EditorDefaultsCount();
    assert EditorOptionsOf(cfg).Keys == EditorDefaults.Keys;
  }

  lemma EditorDefaultsCount()
    ensures |EditorDefaults.Keys| == 10
  {
  }

  /** An `indent-width` of 42 overrides the default and leaves ten options. */
  lemma EditorOptionsOverrideExample(cfg: Config)
    requires cfg == map["editor_options" := JObject(map["indent-width" := JNum(42)])]
    ensures |EditorOptionsOf(cfg)| == 10
    ensures EditorOptionsOf(cfg)["indent-width"] == JNum(42)
    ensures EditorOptionsOf(cfg)["auto-indent"] == JBool(true)
  {
    EditorOptionsCount(cfg);
  }

  /** The `open_files` property: each stored name as a path under the root. */
  function OpenFilesOf(cfg: Config, wsDir: string, cwd: string): seq<Path> {
    var names := StringListOf(cfg, "open_files");
    seq(|names|, i requires 0 <= i < |names| => Create(names[i], RootDirOf(cfg, wsDir), cwd))
  }

  /** The `open_files` setter's update: each path's `rel`. */
  function SetOpenFilesConfig(cfg: Config, files: seq<Path>, cwd: string): Config {
    cfg["open_files" := StringsJson(seq(|files|, i requires 0 <= i < |files| => Rel(files[i], cwd)))]
  }

  /** Open files stored under the current root read back as the same paths, in the same order. */
  lemma OpenFilesRoundTrip(cfg: Config, wsDir: string, files: seq<Path>, cwd: string)
    requires forall i | 0 <= i < |files| :: IsCanonical(files[i].abs) && files[i].wsRoot == RootDirOf(cfg, wsDir)
    ensures OpenFilesOf(SetOpenFilesConfig(cfg, files, cwd), wsDir, cwd) == files
  {
    var rels := seq(|files|, i requires 0 <= i < |files| => Rel(files[i], cwd));
    var cfg' := SetOpenFilesConfig(cfg, files, cwd);
    StringListDefaults(cfg, "open_files", rels);
    assert RootDirOf(cfg', wsDir) == RootDirOf(cfg, wsDir);
    var got := OpenFilesOf(cfg', wsDir, cwd);
    assert |got| == |files|;
    forall i | 0 <= i < |files| ensures got[i] == files[i] {
      RelRoundTrip(files[i], cwd);
    }
  }

  /** Stored names that are relative and plain read back with those names as their `rel`. */
  lemma OpenFilesRel(cfg: Config, wsDir: string, cwd: string, i: nat)
    requires i < |OpenFilesOf(cfg, wsDir, cwd)|
    requires var n := StringListOf(cfg, "open_files")[i]; !IsAbs(n) && AllPlain(Split(n, Sep))
    ensures Rel(OpenFilesOf(cfg, wsDir, cwd)[i], cwd) == StringListOf(cfg, "open_files")[i]
  {
    RelOfCreate(StringListOf(cfg, "open_files")[i], RootDirOf(cfg, wsDir), cwd);
  }

  /** The `symbol_index` property: `index.db` inside the workspace directory. */
  function SymbolIndexOf(cfg: Config, wsDir: string, cwd: string): Path {
    Create(Join(wsDir, IndexName), RootDirOf(cfg, wsDir), cwd)
  }

  /** The symbol index lies directly inside the workspace directory, named `index.db`. */
  lemma SymbolIndexLocation(cfg: Config, wsDir: string, cwd: string)
    requires IsAbs(wsDir)
    ensures Segments(SymbolIndexOf(cfg, wsDir, cwd).abs, cwd) == Segments(wsDir, cwd) + [IndexName]
    ensures PathBasename(SymbolIndexOf(cfg, wsDir, cwd)) == IndexName
    ensures SymbolIndexOf(cfg, wsDir, cwd).wsRoot == RootDirOf(cfg, wsDir)
  {
    var start := Segments(wsDir, cwd);
    var j := Join(wsDir, IndexName);
    SplitNoSep(IndexName, Sep);
    JoinSegments(wsDir, IndexName, cwd);
    ResolvePlain(start, [IndexName]);
    assert IsAbs(j);
    CreateResolvesAgainstRoot(j, RootDirOf(cfg, wsDir), cwd);
    SegmentsOfRealpath(j, cwd);
    BasenameOfJoinAbs(start, IndexName);
  }

  // ------------------------------------------------------------- file list

  /** A name the walk keeps: not hidden and not excluded. */
  predicate Visible(name: string, exclude: seq<string>) {
    !StartsWith(name, ".") && name !in exclude
  }

  /**
   * The entries found below a directory, as chains of names from it: every
   * visible entry, and below every visible directory what is found in it.
   * Invisible directories are pruned before descent.
   */
  function Walk(n: Node, exclude: seq<string>): set<seq<string>>
    decreases n, 1
  {
    match n
    case File(_) => {}
    case Dir(ch) => Below(n, ch.Keys, exclude)
  }

  /** What the walk of the directory `d` finds through the entries named in `keys`. */
  function Below(d: Node, keys: set<string>, exclude: seq<string>): set<seq<string>>
    requires d.Dir?
    decreases d, 0
  {
    set k, t | k in keys && k in d.children && Visible(k, exclude) && t in {[]} + Walk(d.children[k], exclude) :: [k] + t
  }

  /** Taking one more entry into account adds that entry and what is found in it, when it is visible. */
  lemma BelowAddKey(d: Node, keys: set<string>, name: string, exclude: seq<string>)
    requires d.Dir? && name in d.children
    ensures Below(d, keys + {name}, exclude) ==
      Below(d, keys, exclude) +
      (if Visible(name, exclude) then {[name]} + (set t | t in Walk(d.children[name], exclude) :: [name] + t) else {})
  {
    var lhs := Below(d, keys + {name}, exclude);
    var rhs := Below(d, keys, exclude) +
      (if Visible(name, exclude) then {[name]} + (set t | t in Walk(d.children[name], exclude) :: [name] + t) else {});
    forall x | x in lhs ensures x in rhs {
      var k, t :| k in keys + {name} && k in d.children && Visible(k, exclude) && t in {[]} + Walk(d.children[k], exclude) && x == [k] + t;
      if k !in keys {
        assert k == name;
        if t != [] {
          assert x in (set t | t in Walk(d.children[name], exclude) :: [name] + t);
        } else {
          assert x == [name];
        }
      }
    }
    forall x | x in rhs ensures x in lhs {
      if x !in Below(d, keys, exclude) {
        if x == [name] {
          assert x == [name] + [];
        } else {
          var t :| t in Walk(d.children[name], exclude) && x == [name] + t;
        }
      }
    }
  }

  /** Every name of the chain is visible. */
  predicate AllVisible(c: seq<string>, exclude: seq<string>) {
    forall i | 0 <= i < |c| :: Visible(c[i], exclude)
  }

  /** The walk finds exactly the entries reached through visible names only. */
  lemma {:induction false} WalkExactly(n: Node, exclude: seq<string>, c: seq<string>)
    ensures c in Walk(n, exclude) <==> c != [] && Lookup(n, c).Some? && AllVisible(c, exclude)
    decreases n
  {
    if n.Dir? && c != [] {
      var ch := n.children;
      var k := c[0];
      var t := c[1..];
      assert c == [k] + t;
      if k in ch {
        WalkExactly(ch[k], exclude, t);
        assert Lookup(n, c) == Lookup(ch[k], t);
        assert AllVisible(c, exclude) <==> Visible(k, exclude) && AllVisible(t, exclude) by {
          if Visible(k, exclude) && AllVisible(t, exclude) {
            forall i | 0 <= i < |c| ensures Visible(c[i], exclude) {
              if i > 0 { assert c[i] == t[i - 1]; }
            }
          }
          if AllVisible(c, exclude) {
            forall i | 0 <= i < |t| ensures Visible(t[i], exclude) {
              assert t[i] == c[i + 1];
            }
          }
        }
        if c in Walk(n, exclude) {
          assert c in Below(n, ch.Keys, exclude);
          var k', t' :| k' in ch && Visible(k', exclude) && t' in {[]} + Walk(ch[k'], exclude) && c == [k'] + t';
          assert k' == c[0] && t' == c[1..];
        }
        if Lookup(n, c).Some? && AllVisible(c, exclude) {
          if t != [] {
            WalkExactly(ch[k], exclude, t);
          }
          assert t in {[]} + Walk(ch[k], exclude);
        }
      } else {
      }
    }
  }

  /**
   * The recursive traversal of `reload_file_list`: for each entry of a
   * directory, an invisible one is skipped (and so never descended into);
   * a visible one is recorded, and a visible directory is walked in turn.
   */
  method WalkTree(n: Node, exclude: seq<string>) returns (found: set<seq<string>>)
    ensures found == Walk(n, exclude)
    decreases n
  {
    found := {};
    if n.Dir? {
      var ch := n.children;
      var todo := ch.Keys;
      assert Below(n, {}, exclude) == {};
      while todo != {}
        invariant todo <= ch.Keys
        invariant found == Below(n, ch.Keys - todo, exclude)
        decreases todo
      {
        var name :| name in todo;
        BelowAddKey(n, ch.Keys - todo, name, exclude);
        assert ch.Keys - (todo - {name}) == ch.Keys - todo + {name};
        todo := todo - {name};
        if Visible(name, exclude) {
          var below := WalkTree(ch[name], exclude);
          found := found + {[name]} + (set t | t in below :: [name] + t);
        }
      }
    }
  }

  /**
   * The tree of the workspace tests, with `dir2` excluded: `foo`, `dir1`
   * and `dir1/file1` are found; the excluded `dir2`, the hidden `.hidden`
   * and everything below them are not.
   */
  lemma WalkExample(foo: string, dir1: string, dir2: string, file1: string, hidden: string, inner: string)
    requires foo == "foo" && dir1 == "dir1" && dir2 == "dir2" && file1 == "file1"
    requires hidden == ".hidden" && inner == "not_hidden"
    ensures var d := Dir(map[foo := File(None), dir1 := Dir(map[file1 := File(None)]),
                             dir2 := Dir(map[file1 := File(None)]), hidden := Dir(map[inner := File(None)])]);
      [foo] in Walk(d, [dir2]) && [dir1] in Walk(d, [dir2]) && [dir1, file1] in Walk(d, [dir2]) &&
      [dir2] !in Walk(d, [dir2]) && [dir2, file1] !in Walk(d, [dir2]) &&
      [hidden] !in Walk(d, [dir2]) && [hidden, inner] !in Walk(d, [dir2])
  {
    var d := Dir(map[foo := File(None), dir1 := Dir(map[file1 := File(None)]),
                     dir2 := Dir(map[file1 := File(None)]), hidden := Dir(map[inner := File(None)])]);
    var ex := [dir2];
    assert foo[0] == 'f' && dir1[0] == 'd' && file1[0] == 'f';
    assert foo != dir2 && dir1 != dir2 && file1 != dir2;
    assert Visible(foo, ex) && Visible(dir1, ex) && Visible(file1, ex);
    assert hidden[0] == '.';
    assert !Visible(hidden, ex) && !Visible(dir2, ex);
    WalkExactly(d, ex, [foo]);
    WalkExactly(d, ex, [dir1]);
    WalkExactly(d, ex, [dir1, file1]);
    assert [dir1, file1][1..] == [file1];
    WalkExactly(d, ex, [dir2]);
    WalkExactly(d, ex, [dir2, file1]);
    WalkExactly(d, ex, [hidden]);
    WalkExactly(d, ex, [hidden, inner]);
  }

  /** The path `reload_file_list` builds for the entry reached by `c` from `root`. */
  function EntryPath(root: string, c: seq<string>, cwd: string): Path {
    Path(JoinAbs(Segments(root, cwd) + c), root)
  }

  /** That path is the one created from the entry's relative name under the root. */
  lemma EntryPathIsCreate(root: string, c: seq<string>, cwd: string)
    requires c != [] && AllPlain(c)
    ensures EntryPath(root, c, cwd) == Create(JoinWith(c, Sep), root, cwd)
    ensures Rel(EntryPath(root, c, cwd), cwd) == JoinWith(c, Sep)
  {
    var rel := JoinWith(c, Sep);
    var start := Segments(root, cwd);
    JoinWithStartsWithFirst(c, Sep);
    assert !IsAbs(rel);
    SplitJoin(c, Sep);
    CreateResolvesAgainstRoot(rel, root, cwd);
    ResolvePlain(start, c);
    var p := Create(rel, root, cwd);
    CanonicalFixpoint(p.abs, cwd);
    assert p.abs == Realpath(p.abs, cwd);
    RelOfCreate(rel, root, cwd);
  }

  /** The paths of the entries found by a walk from `root`. */
  function FilesOf(chains: set<seq<string>>, root: string, cwd: string): set<Path> {
    set c | c in chains :: EntryPath(root, c, cwd)
  }

  /**
   * The files of a workspace: every entry the walk finds below the root
   * directory. A walk from the empty path finds nothing (listing `""`
   * fails, and the walk drops the error), so an empty root gives no files.
   */
  function ScanFiles(disk: Node, cfg: Config, wsDir: string, cwd: string): set<Path> {
    var root := RootDirOf(cfg, wsDir);
    if root == "" then {}
    else match Lookup(disk, Segments(root, cwd))
      case None => {}
      case Some(n) => FilesOf(Walk(n, ExcludeFilesOf(cfg)), root, cwd)
  }

  /** Entry names of a well-formed tree are plain. */
  lemma {:induction false} WalkPlain(n: Node, exclude: seq<string>, c: seq<string>)
    requires WellFormed(n) && c in Walk(n, exclude)
    ensures AllPlain(c)
    decreases n
  {
    var ch := n.children;
    var k, t :| k in ch && Visible(k, exclude) && t in {[]} + Walk(ch[k], exclude) && c == [k] + t;
    if t != [] {
      WalkPlain(ch[k], exclude, t);
    }
    forall i | 0 <= i < |c| ensures IsPlainName(c[i]) {
      if i > 0 { assert c[i] == t[i - 1]; }
    }
  }

  /**
   * On a well-formed disk whose root is a directory, a path is among the
   * files exactly when it is the path of an existing entry below the root
   * reached through visible names only: nothing hidden, nothing excluded,
   * nothing below a hidden or excluded directory. An empty root names no
   * directory to walk, and no path is among the files.
   */
  lemma ScanFilesExactly(disk: Node, cfg: Config, wsDir: string, cwd: string, c: seq<string>)
    requires WellFormed(disk)
    requires IsDir(disk, RootDirOf(cfg, wsDir), cwd)
    requires AllPlain(c)
    ensures var root := RootDirOf(cfg, wsDir);
      EntryPath(root, c, cwd) in ScanFiles(disk, cfg, wsDir, cwd) <==>
      root != "" && c != [] && Lookup(disk, Segments(root, cwd) + c).Some? && AllVisible(c, ExcludeFilesOf(cfg))
  {
    var root := RootDirOf(cfg, wsDir);
    var start := Segments(root, cwd);
    var n := Lookup(disk, start).value;
    var ex := ExcludeFilesOf(cfg);
    LookupAppend(disk, start, c);
    WalkExactly(n, ex, c);
    if EntryPath(root, c, cwd) in ScanFiles(disk, cfg, wsDir, cwd) {
      var c' :| c' in Walk(n, ex) && EntryPath(root, c', cwd) == EntryPath(root, c, cwd);
      WellFormedBelow(disk, start);
      WalkPlain(n, ex, c');
      PlainAppend(start, c);
      PlainAppend(start, c');
      SegmentsOfJoinAbs(start + c, cwd);
      SegmentsOfJoinAbs(start + c', cwd);
      assert start + c == start + c';
      assert c == (start + c)[|start|..] == (start + c')[|start|..] == c';
    }
  }

  lemma PlainAppend(a: seq<string>, b: seq<string>)
    requires AllPlain(a) && AllPlain(b)
    ensures AllPlain(a + b)
  {
    forall i | 0 <= i < |a + b| ensures IsPlainName((a + b)[i]) {
      if i >= |a| { assert (a + b)[i] == b[i - |a|]; }
    }
  }

  /** Every entry of a well-formed tree is well formed. */
  lemma {:induction false} WellFormedBelow(n: Node, names: seq<string>)
    requires WellFormed(n) && Lookup(n, names).Some?
    ensures WellFormed(Lookup(n, names).value)
    decreases |names|
  {
    if names != [] {
      WellFormedBelow(n.children[names[0]], names[1..]);
    }
  }

  /** The sets `reload_file_list` hands to its listeners. */
  datatype ListenerCall = ListenerCall(listener: nat, removed: set<Path>, added: set<Path>)

  /** One call per listener, in order, all with the same two sets. */
  function Notifications(listeners: seq<nat>, removed: set<Path>, added: set<Path>): (r: seq<ListenerCall>)
    ensures |r| == |listeners|
    ensures forall i | 0 <= i < |r| :: r[i].listener == listeners[i] && r[i].removed == removed && r[i].added == added
  {
    if listeners == [] then []
    else Notifications(listeners[..|listeners| - 1], removed, added) + [ListenerCall(listeners[|listeners| - 1], removed, added)]
  }

  /** The removed and added sets are disjoint, and applying them to the old files gives the new. */
  lemma FileChanges(before: set<Path>, after: set<Path>)
    ensures (before - after) * (after - before) == {}
    ensures before - (before - after) + (after - before) == after
    ensures before == after <==> before - after == {} && after - before == {}
  {
  }

  // --------------------------------------------------------------- Workspace

  /** A workspace that has been opened: its configuration, files and listeners. */
  class Workspace {
    /** `os.path.abspath(workspace_dir)`. */
    const workspaceDir: string
    /** The process working directory, against which relative names resolve. */
    const cwd: string
    var files: set<Path>
    /** Listeners, by identity, in registration order. */
    var fileListeners: seq<nat>
    var config: Config
    /** Every listener call made so far, in order. */
    var calls: seq<ListenerCall>

    constructor (workspaceDir: string, cwd: string, config: Config)
      ensures this.workspaceDir == workspaceDir && this.cwd == cwd && this.config == config
      ensures files == {} && fileListeners == [] && calls == []
    {
      this.workspaceDir := workspaceDir;
      this.cwd := cwd;
      this.config := config;
      files := {};
      fileListeners := [];
      calls := [];
    }

    /**
     * `Workspace(workspace_dir, must_exist)`: fails when the directory must
     * exist and does not, or when the config cannot be decoded; otherwise
     * loads the config and the file list.
     */
    static method Open(workspaceDir: string, mustExist: bool, disk: Node, cwd: string)
      returns (r: Result<Workspace, WsError>)
      ensures var dir := Realpath(workspaceDir, cwd);
        mustExist && !IsDir(disk, dir, cwd) ==> r == Err(NoWorkspaceDir)
      ensures var dir := Realpath(workspaceDir, cwd);
        !(mustExist && !IsDir(disk, dir, cwd)) && LoadConfig(disk, dir, cwd).Err? ==> r == Err(InvalidConfig)
      ensures var dir := Realpath(workspaceDir, cwd);
        !(mustExist && !IsDir(disk, dir, cwd)) && LoadConfig(disk, dir, cwd).Ok? ==>
          r.Ok? && fresh(r.value) &&
          r.value.workspaceDir == dir && r.value.cwd == cwd &&
          r.value.config == LoadConfig(disk, dir, cwd).value &&
          r.value.files == ScanFiles(disk, r.value.config, dir, cwd) &&
          r.value.fileListeners == [] && r.value.calls == []
    {
      var dir := Realpath(workspaceDir, cwd);
      if mustExist && !IsDir(disk, dir, cwd) {
        return Err(NoWorkspaceDir);
      }
      var loaded := LoadConfig(disk, dir, cwd);
      if loaded.Err? {
        return Err(InvalidConfig);
      }
      var w := new Workspace(dir, cwd, loaded.value);
      w.ReloadFileList(disk);
      return Ok(w);
    }

    /** Registers a listener after the existing ones. */
    method AddListener(listener: nat)
      modifies this`fileListeners
      ensures fileListeners == old(fileListeners) + [listener]
    {
      fileListeners := fileListeners + [listener];
    }

    /**
     * `reload_file_list`: rescans the root, replaces `files`, and calls
     * every listener once, in order, with what was removed and added,
     * even when nothing changed.
     */
    method ReloadFileList(disk: Node)
      modifies this`files, this`calls
      ensures files == ScanFiles(disk, config, workspaceDir, cwd)
      ensures calls == old(calls) + Notifications(fileListeners, old(files) - files, files - old(files))
    {
      var root := RootDirOf(config, workspaceDir);
      var newFiles: set<Path> := {};
      if root != "" {
        var top := Lookup(disk, Segments(root, cwd));
        if top.Some? {
          var chains := WalkTree(top.value, ExcludeFilesOf(config));
          newFiles := FilesOf(chains, root, cwd);
          assert newFiles == ScanFiles(disk, config, workspaceDir, cwd);
        } else {
          assert ScanFiles(disk, config, workspaceDir, cwd) == {};
        }
      }
      var removed := files - newFiles;
      var added := newFiles - files;
      files := newFiles;
      NotifyListeners(removed, added);
    }

    /** The notification loop of `reload_file_list`: every listener, in order, gets the removed and added files. */
    method NotifyListeners(removed: set<Path>, added: set<Path>)
      modifies this`calls
      ensures calls == old(calls) + Notifications(fileListeners, removed, added)
    {
      var i := 0;
      while i < |fileListeners|
        invariant 0 <= i <= |fileListeners|
        invariant calls == old(calls) + Notifications(fileListeners[..i], removed, added)
      {
        assert fileListeners[..i + 1][..i] == fileListeners[..i];
        calls := calls + [ListenerCall(fileListeners[i], removed, added)];
        i := i + 1;
      }
      assert fileListeners[..i] == fileListeners;
    }

    /** The `open_files` setter: stores each path's `rel`, then saves. */
    method SetOpenFiles(openFiles: seq<Path>, disk: Node) returns (disk': Node)
      modifies this`config
      ensures config == SetOpenFilesConfig(old(config), openFiles, cwd)
      ensures disk' == WriteConfig(disk, workspaceDir, cwd, config)
    {
      config := SetOpenFilesConfig(config, openFiles, cwd);
      disk' := WriteConfig(disk, workspaceDir, cwd, config);
    }

    /** The `root_dir` setter: stores the new root, then saves. */
    method SetRootDir(root: string, disk: Node) returns (disk': Node)
      modifies this`config
      ensures config == old(config)["root_dir" := JStr(root)]
      ensures disk' == WriteConfig(disk, workspaceDir, cwd, config)
    {
      config := config["root_dir" := JStr(root)];
      disk' := WriteConfig(disk, workspaceDir, cwd, config);
    }
  }
}
