/**
 * A Python source file as a vertex of the dependency graph: the names its
 * import statements mention are resolved to files (the file's imports),
 * and linking turns every import that is itself a vertex into an
 * `import` edge stored on both ends.
 */
module PyFiles {
  import opened Wrappers
  import opened Paths
  import opened FileSystem
  import opened Edges

  // ------------------------------------------------------- import names

  /** An import statement as the syntax walk meets it. */
  datatype Stmt =
    | PlainImport(names: seq<string>)
    | FromImport(mod: string, names: seq<string>)

  /** A name to resolve, and whether it may name something other than a module. */
  datatype ImportName = ImportName(name: string, maybeNotModule: bool)

  /** The name collected for `x`, one of the names a statement lists. */
  function ItemName(s: Stmt, x: string): ImportName {
    if s.PlainImport? then ImportName(x, false) else ImportName(s.mod + "." + x, true)
  }

  /** The names collected for the listed `names`, in order. */
  function ItemNames(s: Stmt, names: seq<string>): seq<ImportName> {
    if names == [] then []
    else ItemNames(s, names[..|names| - 1]) + [ItemName(s, names[|names| - 1])]
  }

  /** What a from-import contributes before its listed names: its module. */
  function Lead(s: Stmt): seq<ImportName> {
    if s.FromImport? then [ImportName(s.mod, false)] else []
  }

  /**
   * The names one statement contributes: each name of `import a, b`; the
   * module of `from m import x, y`, then `m.x` and `m.y`, which may be
   * attributes rather than modules.
   */
  function StmtNames(s: Stmt): seq<ImportName> {
    Lead(s) + ItemNames(s, s.names)
  }

  /** The names of all statements, in walk order. */
  function ParsedImports(stmts: seq<Stmt>): seq<ImportName> {
    if stmts == [] then []
    else ParsedImports(stmts[..|stmts| - 1]) + StmtNames(stmts[|stmts| - 1])
  }

  /** The statement imports `n` as a module in its own right. */
  predicate ImportsModule(s: Stmt, n: string) {
    (s.PlainImport? && n in s.names) || (s.FromImport? && n == s.mod)
  }

  /** The statement imports `n` as `module.attribute` of a from-import. */
  predicate ImportsAttribute(s: Stmt, n: string) {
    s.FromImport? && exists x :: x in s.names && n == s.mod + "." + x
  }

  /** A name is collected for the listed names exactly when one of them yields it. */
  lemma {:induction false} ItemNamesMembership(s: Stmt, names: seq<string>, n: ImportName)
    ensures n in ItemNames(s, names) <==> exists x :: x in names && ItemName(s, x) == n
    decreases |names|
  {
    if names != [] {
      var init, last := names[..|names| - 1], names[|names| - 1];
      ItemNamesMembership(s, init, n);
      assert names == init + [last];
      if exists x :: x in names && ItemName(s, x) == n {
        var x :| x in names && ItemName(s, x) == n;
        if x != last {
          assert x in init;
        }
      }
    }
  }

  lemma StmtNamesMembership(s: Stmt, n: string)
    ensures ImportName(n, false) in StmtNames(s) <==> ImportsModule(s, n)
    ensures ImportName(n, true) in StmtNames(s) <==> ImportsAttribute(s, n)
  {
    ItemNamesMembership(s, s.names, ImportName(n, false));
    ItemNamesMembership(s, s.names, ImportName(n, true));
    if s.PlainImport? {
      if n in s.names {
        assert ItemName(s, n) == ImportName(n, false);
      }
    } else {
      if ImportsAttribute(s, n) {
        var x :| x in s.names && n == s.mod + "." + x;
        assert ItemName(s, x) == ImportName(n, true);
      }
    }
  }

  /** Some statement of `init + [last]` imports `n` as a module: one of `init` or `last`. */
  lemma ModuleSomewhereSnoc(stmts: seq<Stmt>, init: seq<Stmt>, n: string)
    requires stmts != [] && init == stmts[..|stmts| - 1]
    ensures (exists i :: 0 <= i < |stmts| && ImportsModule(stmts[i], n)) <==>
      (exists i :: 0 <= i < |init| && ImportsModule(init[i], n)) || ImportsModule(stmts[|stmts| - 1], n)
  {
    if exists i :: 0 <= i < |stmts| && ImportsModule(stmts[i], n) {
      var i :| 0 <= i < |stmts| && ImportsModule(stmts[i], n);
      if i < |init| { assert init[i] == stmts[i]; }
    }
    if exists i :: 0 <= i < |init| && ImportsModule(init[i], n) {
      var i :| 0 <= i < |init| && ImportsModule(init[i], n);
      assert init[i] == stmts[i];
    }
  }

  /** A name is collected as a module exactly when some statement imports it as one. */
  lemma {:induction false} ParsedModulesMembership(stmts: seq<Stmt>, n: string)
    ensures ImportName(n, false) in ParsedImports(stmts) <==>
      exists i :: 0 <= i < |stmts| && ImportsModule(stmts[i], n)
    decreases |stmts|
  {
    if stmts != [] {
      var init := stmts[..|stmts| - 1];
      var last := stmts[|stmts| - 1];
      calc <==> {
        ImportName(n, false) in ParsedImports(stmts);
        { assert ParsedImports(stmts) == ParsedImports(init) + StmtNames(last); }
        ImportName(n, false) in ParsedImports(init) || ImportName(n, false) in StmtNames(last);
        { ParsedModulesMembership(init, n); StmtNamesMembership(last, n); }
        (exists i :: 0 <= i < |init| && ImportsModule(init[i], n)) || ImportsModule(last, n);
        { ModuleSomewhereSnoc(stmts, init, n); }
        exists i :: 0 <= i < |stmts| && ImportsModule(stmts[i], n);
      }
    }
  }

  /** Some statement of `init + [last]` imports `n` as an attribute: one of `init` or `last`. */
  lemma AttributeSomewhereSnoc(stmts: seq<Stmt>, init: seq<Stmt>, n: string)
    requires stmts != [] && init == stmts[..|stmts| - 1]
    ensures (exists i :: 0 <= i < |stmts| && ImportsAttribute(stmts[i], n)) <==>
      (exists i :: 0 <= i < |init| && ImportsAttribute(init[i], n)) || ImportsAttribute(stmts[|stmts| - 1], n)
  {
    if exists i :: 0 <= i < |stmts| && ImportsAttribute(stmts[i], n) {
      var i :| 0 <= i < |stmts| && ImportsAttribute(stmts[i], n);
      if i < |init| { assert init[i] == stmts[i]; }
    }
    if exists i :: 0 <= i < |init| && ImportsAttribute(init[i], n) {
      var i :| 0 <= i < |init| && ImportsAttribute(init[i], n);
      assert init[i] == stmts[i];
    }
  }

  /** A name is collected as a possible attribute exactly when some from-import names it as `module.attribute`. */
  lemma {:induction false} ParsedAttributesMembership(stmts: seq<Stmt>, n: string)
    ensures ImportName(n, true) in ParsedImports(stmts) <==>
      exists i :: 0 <= i < |stmts| && ImportsAttribute(stmts[i], n)
    decreases |stmts|
  {
    if stmts != [] {
      var init := stmts[..|stmts| - 1];
      var last := stmts[|stmts| - 1];
      calc <==> {
        ImportName(n, true) in ParsedImports(stmts);
        { assert ParsedImports(stmts) == ParsedImports(init) + StmtNames(last); }
        ImportName(n, true) in ParsedImports(init) || ImportName(n, true) in StmtNames(last);
        { ParsedAttributesMembership(init, n); StmtNamesMembership(last, n); }
        (exists i :: 0 <= i < |init| && ImportsAttribute(init[i], n)) || ImportsAttribute(last, n);
        { AttributeSomewhereSnoc(stmts, init, n); }
        exists i :: 0 <= i < |stmts| && ImportsAttribute(stmts[i], n);
      }
    }
  }

  /** `import a, b` gives `a` and `b`; `from m import x, y` gives `m`, then `m.x` and `m.y` as possible attributes. */
  lemma ImportFormsExample()
    ensures ParsedImports([PlainImport(["a", "b"])]) == [ImportName("a", false), ImportName("b", false)]
    ensures ParsedImports([FromImport("m", ["x", "y"])]) ==
      [ImportName("m", false), ImportName("m.x", true), ImportName("m.y", true)]
  {
    assert [PlainImport(["a", "b"])][..0] == [];
    assert [FromImport("m", ["x", "y"])][..0] == [];
    assert ["a", "b"][..1] == ["a"] && ["x", "y"][..1] == ["x"];
    assert ["a"][..0] == [] && ["x"][..0] == [];
    assert "m" + "." + "x" == "m.x" && "m" + "." + "y" == "m.y";
  }

  /** The inner loop of `_load` over one statement's names. */
  method AppendStmtNames(parsed: seq<ImportName>, st: Stmt) returns (r: seq<ImportName>)
    ensures r == parsed + StmtNames(st)
  {
    r := parsed;
    if st.FromImport? {
      r := r + [ImportName(st.mod, false)];
    }
    var names := st.names;
    var j := 0;
    while j < |names|
      invariant 0 <= j <= |names|
      invariant r == parsed + Lead(st) + ItemNames(st, names[..j])
    {
      var n := if st.PlainImport? then ImportName(names[j], false) else ImportName(st.mod + "." + names[j], true);
      assert names[..j + 1][..j] == names[..j];
      r := r + [n];
      j := j + 1;
    }
    assert names[..j] == names;
  }

  /** A program of one statement listing one name. */
  lemma ParsedImportsSingle(st: Stmt, x: string)
    requires st.names == [x]
    ensures ParsedImports([st]) == Lead(st) + [ItemName(st, x)]
  {
    assert [st][..0] == [];
    assert [x][..0] == [];
    assert ItemNames(st, [x]) == [ItemName(st, x)];
    assert ParsedImports([st]) == [] + StmtNames(st);
  }

  /** The name-collecting loop of `_load`, appending in walk order. */
  method CollectImportNames(stmts: seq<Stmt>) returns (parsed: seq<ImportName>)
    ensures parsed == ParsedImports(stmts)
  {
    parsed := [];
    var i := 0;
    while i < |stmts|
      invariant 0 <= i <= |stmts|
      invariant parsed == ParsedImports(stmts[..i])
    {
      parsed := AppendStmtNames(parsed, stmts[i]);
      assert stmts[..i + 1][..i] == stmts[..i];
      i := i + 1;
    }
    assert stmts[..i] == stmts;
  }

  // ---------------------------------------------------------- resolution

  /**
   * `resolve_import(name, finder, python_path)`: the files that loading
   * `name` executes, or `None` where it raises `ImportError`.
   */
  type Resolver = (string, seq<string>) -> Option<set<string>>

  /** The files of one name: none when it fails to resolve. */
  function FilesOfName(n: ImportName, resolve: Resolver, pythonPath: seq<string>): set<string> {
    match resolve(n.name, pythonPath)
    case None => {}
    case Some(fs) => fs
  }

  /** The union of the files of all names that resolve. */
  function ResolvedFiles(parsed: seq<ImportName>, resolve: Resolver, pythonPath: seq<string>): set<string> {
    if parsed == [] then {}
    else ResolvedFiles(parsed[..|parsed| - 1], resolve, pythonPath) + FilesOfName(parsed[|parsed| - 1], resolve, pythonPath)
  }

  /** The names whose failure is logged: those that fail and must be modules. */
  function LoggedFailures(parsed: seq<ImportName>, resolve: Resolver, pythonPath: seq<string>): seq<string> {
    if parsed == [] then []
    else
      var n := parsed[|parsed| - 1];
      LoggedFailures(parsed[..|parsed| - 1], resolve, pythonPath) +
        (if resolve(n.name, pythonPath).None? && !n.maybeNotModule then [n.name] else [])
  }

  /** `Path(os.path.realpath(p), root_dir)`. */
  function ImportPath(f: string, rootDir: string, cwd: string): Path {
    Create(Realpath(f, cwd), rootDir, cwd)
  }

  /** The `imports` a successful parse produces. */
  function ResolvedImports(parsed: seq<ImportName>, resolve: Resolver, pythonPath: seq<string>, rootDir: string, cwd: string): set<Path> {
    set f | f in ResolvedFiles(parsed, resolve, pythonPath) :: ImportPath(f, rootDir, cwd)
  }

  /**
   * A file is resolved exactly when some collected name resolves to a set
   * holding it: a name that fails adds nothing, whichever its flag.
   */
  lemma {:induction false} ResolvedFilesMembership(parsed: seq<ImportName>, resolve: Resolver, pythonPath: seq<string>, f: string)
    ensures f in ResolvedFiles(parsed, resolve, pythonPath) <==>
      exists j :: 0 <= j < |parsed| && resolve(parsed[j].name, pythonPath).Some? && f in resolve(parsed[j].name, pythonPath).value
    decreases |parsed|
  {
    if parsed != [] {
      var init := parsed[..|parsed| - 1];
      ResolvedFilesMembership(init, resolve, pythonPath, f);
      forall j | 0 <= j < |init| ensures init[j] == parsed[j] { }
      if exists j :: 0 <= j < |parsed| && resolve(parsed[j].name, pythonPath).Some? && f in resolve(parsed[j].name, pythonPath).value {
        var j :| 0 <= j < |parsed| && resolve(parsed[j].name, pythonPath).Some? && f in resolve(parsed[j].name, pythonPath).value;
        if j < |init| {
          assert resolve(init[j].name, pythonPath).Some? && f in resolve(init[j].name, pythonPath).value;
        }
      }
    }
  }

  /** A failure is logged exactly for a name that must be a module and does not resolve. */
  lemma {:induction false} LoggedFailuresMembership(parsed: seq<ImportName>, resolve: Resolver, pythonPath: seq<string>, n: string)
    ensures n in LoggedFailures(parsed, resolve, pythonPath) <==>
      resolve(n, pythonPath).None? && ImportName(n, false) in parsed
    decreases |parsed|
  {
    if parsed != [] {
      var init := parsed[..|parsed| - 1];
      LoggedFailuresMembership(init, resolve, pythonPath, n);
      assert parsed == init + [parsed[|parsed| - 1]];
    }
  }

  /** The files of `a + [n]` are those of `a` and those of `n`. */
  lemma ImportPathsUnion(a: set<string>, b: set<string>, rootDir: string, cwd: string)
    ensures (set f | f in a + b :: ImportPath(f, rootDir, cwd)) ==
      (set f | f in a :: ImportPath(f, rootDir, cwd)) + (set f | f in b :: ImportPath(f, rootDir, cwd))
  {
  }

  /**
   * The resolution loop of `_load`: each name's files are added to the
   * imports; a failure contributes nothing and is logged only for a name
   * that must be a module.
   */
  method ResolveAll(parsed: seq<ImportName>, resolve: Resolver, pythonPath: seq<string>, rootDir: string, cwd: string)
    returns (imports: set<Path>, logged: seq<string>)
    ensures imports == ResolvedImports(parsed, resolve, pythonPath, rootDir, cwd)
    ensures logged == LoggedFailures(parsed, resolve, pythonPath)
  {
    imports := {};
    logged := [];
    var i := 0;
    while i < |parsed|
      invariant 0 <= i <= |parsed|
      invariant imports == ResolvedImports(parsed[..i], resolve, pythonPath, rootDir, cwd)
      invariant logged == LoggedFailures(parsed[..i], resolve, pythonPath)
    {
      var n := parsed[i];
      assert parsed[..i + 1][..i] == parsed[..i];
      ImportPathsUnion(ResolvedFiles(parsed[..i], resolve, pythonPath), FilesOfName(n, resolve, pythonPath), rootDir, cwd);
      match resolve(n.name, pythonPath) {
        case Some(fs) =>
          imports := imports + (set f | f in fs :: ImportPath(f, rootDir, cwd));
        case None =>
          if !n.maybeNotModule {
            logged := logged + [n.name];
          }
      }
      i := i + 1;
    }
    assert parsed[..i] == parsed;
  }

  // ------------------------------------------- a table-driven resolver

  /** What a finder reports for a name: a source module or a package directory. */
  datatype ModuleKind = SourceModule | PackageDir

  /** A finder as a table: (name, enclosing package directory or none) to (location, kind). */
  type FinderTable = map<(string, Option<string>), (string, ModuleKind)>

  /**
   * Resolving the dotted segments one by one: each package contributes its
   * `__init__.py` and is searched for the next segment; a module must be
   * the last segment; a missing entry fails the whole name.
   */
  function FindChain(table: FinderTable, segs: seq<string>, parent: Option<string>): (r: Option<set<string>>)
    ensures r.Some? && segs != [] ==> r.value != {}
    decreases |segs|
  {
    if segs == [] then Some({})
    else if (segs[0], parent) !in table then None
    else
      var (loc, kind) := table[(segs[0], parent)];
      match kind
      case SourceModule => if |segs| == 1 then Some({loc}) else None
      case PackageDir =>
        match FindChain(table, segs[1..], Some(loc))
        case None => None
        case Some(rest) => Some({loc + "__init__.py"} + rest)
  }

  /** A resolver over a table; it consults no search path. */
  function TableResolver(table: FinderTable): Resolver {
    (name: string, pythonPath: seq<string>) => FindChain(table, Split(name, '.'), None)
  }

  /** The module tree `root` (package) / `pkg` (package) / `mod` (module). */
  const SampleTable: FinderTable := map[
    ("mod", Some("/root/pkg/")) := ("/root/pkg/mod.py", SourceModule),
    ("pkg", Some("/root/")) := ("/root/pkg/", PackageDir),
    ("root", None) := ("/root/", PackageDir)
  ]

  /** Two dot-free names joined by a dot split back into the two. */
  lemma {:induction false} SplitDottedPair(a: string, b: string)
    requires '.' !in a && '.' !in b
    ensures Split(a + "." + b, '.') == [a, b]
  {
    calc {
      Split(a + "." + b, '.');
    == { assert a + "." + b == a + ['.'] + b; SplitAppend(a, b, '.'); }
      Split(a, '.') + Split(b, '.');
    == { SplitNoSep(a, '.'); SplitNoSep(b, '.'); }
      [a] + [b];
    }
  }

  lemma {:induction false} SplitDotted(a: string, b: string, c: string)
    requires '.' !in a && '.' !in b && '.' !in c
    ensures Split(a + "." + b, '.') == [a, b]
    ensures Split(a + "." + b + "." + c, '.') == [a, b, c]
  {
    SplitDottedPair(a, b);
    calc {
      Split(a + "." + b + "." + c, '.');
    == { assert a + "." + b + "." + c == a + ['.'] + (b + "." + c); SplitAppend(a, b + "." + c, '.'); }
      Split(a, '.') + Split(b + "." + c, '.');
    == { SplitNoSep(a, '.'); SplitDottedPair(b, c); }
      [a] + [b, c];
    }
  }

  /** In the sample tree, `mod` inside `/root/pkg/` is a source module. */
  lemma ChainMod(m: string)
    requires m == "mod"
    ensures FindChain(SampleTable, [m], Some("/root/pkg/")) == Some({"/root/pkg/mod.py"})
  {
    assert (m, Some("/root/pkg/")) in SampleTable;
  }

  /** `pkg.mod` inside `/root/`: the package initialiser and the module. */
  lemma ChainPkgMod(p: string, m: string)
    requires p == "pkg" && m == "mod"
    ensures FindChain(SampleTable, [p, m], Some("/root/")) == Some({"/root/pkg/__init__.py", "/root/pkg/mod.py"})
  {
    assert SampleTable[(p, Some("/root/"))] == ("/root/pkg/", PackageDir);
    assert [p, m][1..] == [m];
    ChainMod(m);
    assert FindChain(SampleTable, [p, m], Some("/root/")) == Some({"/root/pkg/" + "__init__.py"} + {"/root/pkg/mod.py"});
    assert "/root/pkg/" + "__init__.py" == "/root/pkg/__init__.py";
    assert {"/root/pkg/" + "__init__.py"} + {"/root/pkg/mod.py"} == {"/root/pkg/__init__.py", "/root/pkg/mod.py"};
  }

  /** `root.pkg.mod` from the top: both initialisers and the module. */
  lemma ChainRootPkgMod(r: string, p: string, m: string)
    requires r == "root" && p == "pkg" && m == "mod"
    ensures FindChain(SampleTable, [r, p, m], None) ==
      Some({"/root/__init__.py", "/root/pkg/__init__.py", "/root/pkg/mod.py"})
  {
    assert SampleTable[(r, None)] == ("/root/", PackageDir);
    assert [r, p, m][1..] == [p, m];
    ChainPkgMod(p, m);
    assert FindChain(SampleTable, [r, p, m], None) ==
      Some({"/root/" + "__init__.py"} + {"/root/pkg/__init__.py", "/root/pkg/mod.py"});
    assert "/root/" + "__init__.py" == "/root/__init__.py";
    assert {"/root/" + "__init__.py"} + {"/root/pkg/__init__.py", "/root/pkg/mod.py"} ==
      {"/root/__init__.py", "/root/pkg/__init__.py", "/root/pkg/mod.py"};
  }

  /** `root.pkg` from the top: the two initialisers. */
  lemma ChainRootPkg(r: string, p: string)
    requires r == "root" && p == "pkg"
    ensures FindChain(SampleTable, [r, p], None) == Some({"/root/__init__.py", "/root/pkg/__init__.py"})
  {
    assert SampleTable[(r, None)] == ("/root/", PackageDir);
    assert SampleTable[(p, Some("/root/"))] == ("/root/pkg/", PackageDir);
    assert [r, p][1..] == [p];
    assert [p][1..] == [];
    assert FindChain(SampleTable, [], Some("/root/pkg/")) == Some({});
    assert FindChain(SampleTable, [p], Some("/root/")) == Some({"/root/pkg/" + "__init__.py"} + {});
    assert {"/root/pkg/" + "__init__.py"} + {} == {"/root/pkg/" + "__init__.py"};
    assert FindChain(SampleTable, [r, p], None) ==
      Some({"/root/" + "__init__.py"} + {"/root/pkg/" + "__init__.py"});
    assert "/root/" + "__init__.py" == "/root/__init__.py";
    assert "/root/pkg/" + "__init__.py" == "/root/pkg/__init__.py";
    assert {"/root/" + "__init__.py"} + {"/root/pkg/" + "__init__.py"} == {"/root/__init__.py", "/root/pkg/__init__.py"};
  }

  /** `root.pkg.Classy` fails: `pkg` holds no module `Classy`. */
  lemma ChainRootPkgClassy(r: string, p: string, c: string)
    requires r == "root" && p == "pkg" && c == "Classy"
    ensures FindChain(SampleTable, [r, p, c], None) == None
  {
    assert SampleTable[(r, None)] == ("/root/", PackageDir);
    assert SampleTable[(p, Some("/root/"))] == ("/root/pkg/", PackageDir);
    assert [r, p, c][1..] == [p, c];
    assert [p, c][1..] == [c];
    assert (c, Some("/root/pkg/")) !in SampleTable;
    assert FindChain(SampleTable, [c], Some("/root/pkg/")) == None;
    assert FindChain(SampleTable, [p, c], Some("/root/")) == None;
  }

  /** One name: its files, and its failure logged when it must be a module. */
  lemma ResolveOne(n: ImportName, resolve: Resolver, pythonPath: seq<string>)
    ensures ResolvedFiles([n], resolve, pythonPath) == FilesOfName(n, resolve, pythonPath)
    ensures LoggedFailures([n], resolve, pythonPath) ==
      if resolve(n.name, pythonPath).None? && !n.maybeNotModule then [n.name] else []
  {
    assert [n][..0] == [];
  }

  /** Two names: the union of their files, and their failures in order. */
  lemma ResolveTwo(n: ImportName, o: ImportName, resolve: Resolver, pythonPath: seq<string>)
    ensures ResolvedFiles([n, o], resolve, pythonPath) ==
      FilesOfName(n, resolve, pythonPath) + FilesOfName(o, resolve, pythonPath)
    ensures LoggedFailures([n, o], resolve, pythonPath) ==
      LoggedFailures([n], resolve, pythonPath) +
        (if resolve(o.name, pythonPath).None? && !o.maybeNotModule then [o.name] else [])
  {
    assert [n, o][..1] == [n];
    ResolveOne(n, resolve, pythonPath);
  }

  /**
   * `import root.pkg.mod` (spelt `r.p.m`) resolves to both package
   * initialisers and the module, with nothing logged.
   */
  lemma ImportModuleExample(r: string, p: string, m: string, pythonPath: seq<string>)
    requires r == "root" && p == "pkg" && m == "mod"
    ensures var parsed := ParsedImports([PlainImport([r + "." + p + "." + m])]);
      ResolvedFiles(parsed, TableResolver(SampleTable), pythonPath)
        == {"/root/__init__.py", "/root/pkg/__init__.py", "/root/pkg/mod.py"} &&
      LoggedFailures(parsed, TableResolver(SampleTable), pythonPath) == []
  {
    var name := r + "." + p + "." + m;
    ParsedImportsSingle(PlainImport([name]), name);
    assert ParsedImports([PlainImport([name])]) == [ImportName(name, false)];
    SplitDotted(r, p, m);
    ChainRootPkgMod(r, p, m);
    ResolveOne(ImportName(name, false), TableResolver(SampleTable), pythonPath);
  }

  /**
   * `from root.pkg import Classy` (spelt `from r.p import c`) resolves to
   * the two initialisers only; the failed attribute is not logged.
   */
  lemma FromImportAttributeExample(r: string, p: string, c: string, pythonPath: seq<string>)
    requires r == "root" && p == "pkg" && c == "Classy"
    ensures var parsed := ParsedImports([FromImport(r + "." + p, [c])]);
      ResolvedFiles(parsed, TableResolver(SampleTable), pythonPath) == {"/root/__init__.py", "/root/pkg/__init__.py"} &&
      LoggedFailures(parsed, TableResolver(SampleTable), pythonPath) == []
  {
    var pkg := r + "." + p;
    ParsedImportsSingle(FromImport(pkg, [c]), c);
    assert ParsedImports([FromImport(pkg, [c])]) == [ImportName(pkg, false), ImportName(pkg + "." + c, true)];
    SplitDotted(r, p, c);
    ChainRootPkg(r, p);
    ChainRootPkgClassy(r, p, c);
    ResolveTwo(ImportName(pkg, false), ImportName(pkg + "." + c, true), TableResolver(SampleTable), pythonPath);
    ResolveOne(ImportName(pkg, false), TableResolver(SampleTable), pythonPath);
  }

  /**
   * `from root.pkg import mod` (spelt `from r.p import m`) resolves to
   * both initialisers and the module.
   */
  lemma FromImportModuleExample(r: string, p: string, m: string, pythonPath: seq<string>)
    requires r == "root" && p == "pkg" && m == "mod"
    ensures var parsed := ParsedImports([FromImport(r + "." + p, [m])]);
      ResolvedFiles(parsed, TableResolver(SampleTable), pythonPath)
        == {"/root/__init__.py", "/root/pkg/__init__.py", "/root/pkg/mod.py"}
  {
    var pkg := r + "." + p;
    ParsedImportsSingle(FromImport(pkg, [m]), m);
    assert ParsedImports([FromImport(pkg, [m])]) == [ImportName(pkg, false), ImportName(pkg + "." + m, true)];
    SplitDotted(r, p, m);
    ChainRootPkg(r, p);
    ChainRootPkgMod(r, p, m);
    ResolveTwo(ImportName(pkg, false), ImportName(pkg + "." + m, true), TableResolver(SampleTable), pythonPath);
  }

  // -------------------------------------------------------------- linking

  /** The edges `visit` creates: one `import` edge from `src` to the vertex of each import that has one. */
  function LinkEdges<K, V(==)>(src: V, imports: set<K>, graph: map<K, V>): set<Edge<V>> {
    set i | i in imports && i in graph :: Edge(Import, src, graph[i])
  }

  /** The edges among `es` that end at `v`. */
  function EdgesInto<V(==)>(es: set<Edge<V>>, v: V): set<Edge<V>> {
    set e | e in es && e.dest == v
  }

  /** Every link is an `import` edge from the source to the vertex of one of its imports, and each such vertex gets one. */
  lemma LinkEdgesExactly<K, V>(src: V, imports: set<K>, graph: map<K, V>, e: Edge<V>)
    ensures e in LinkEdges(src, imports, graph) <==>
      e.kind == Import && e.source == src && exists i :: i in imports && i in graph && graph[i] == e.dest
  {
    if e.kind == Import && e.source == src && exists i :: i in imports && i in graph && graph[i] == e.dest {
      var i :| i in imports && i in graph && graph[i] == e.dest;
      assert e == Edge(Import, src, graph[i]);
    }
  }

  /** An import with no vertex adds no edge. */
  lemma LinkSkipsAbsent<K, V>(src: V, imports: set<K>, graph: map<K, V>, i: K)
    requires i !in graph
    ensures LinkEdges(src, imports + {i}, graph) == LinkEdges(src, imports, graph)
  {
  }

  /** An import with a vertex adds exactly the edge to that vertex. */
  lemma LinkAddPresent<K, V>(src: V, imports: set<K>, graph: map<K, V>, i: K)
    requires i in graph
    ensures LinkEdges(src, imports + {i}, graph) == LinkEdges(src, imports, graph) + {Edge(Import, src, graph[i])}
  {
  }

  /** One more edge adds itself to the edges into its destination and nothing to the others. */
  lemma EdgesIntoAdd<V>(es: set<Edge<V>>, e: Edge<V>, v: V)
    ensures EdgesInto(es + {e}, v) == EdgesInto(es, v) + (if e.dest == v then {e} else {})
  {
  }

  /** Linking `a`, which imports `b` (a vertex) and `c` (none), gives the single edge `a -> b`. */
  lemma LinkExample(a: int, b: int, kb: string, kc: string)
    requires kb != kc
    ensures LinkEdges(a, {kb, kc}, map[kb := b]) == {Edge(Import, a, b)}
  {
    assert Edge(Import, a, b) in LinkEdges(a, {kb, kc}, map[kb := b]);
  }

  // --------------------------------------------------------------- PyFile

  /** A Python source file: its path, resolved imports, and the edges stored on it. */
  class PyFile {
    const path: Path
    var imports: set<Path>
    var outgoing: set<Edge<PyFile>>
    var incoming: set<Edge<PyFile>>

    /**
     * `PyFile(path, workspace, finder, no_load)`: `source` is the parsed
     * text (`None` for a syntax error); loading is skipped with `noLoad`.
     */
    constructor (path: Path, source: Option<seq<Stmt>>, noLoad: bool,
                 resolve: Resolver, pythonPath: seq<string>, rootDir: string, cwd: string)
      ensures this.path == path && outgoing == {} && incoming == {}
      ensures imports ==
        if noLoad || source.None? then {}
        else ResolvedImports(ParsedImports(source.value), resolve, pythonPath, rootDir, cwd)
    {
      this.path := path;
      imports := {};
      outgoing := {};
      incoming := {};
      new;
      if !noLoad {
        var _ := Load(source, resolve, pythonPath, rootDir, cwd);
      }
    }

    /**
     * `_load`: a syntax error leaves the imports as they were and logs no
     * resolution failure; otherwise the imports become the resolved files
     * of all collected names.
     */
    method Load(source: Option<seq<Stmt>>, resolve: Resolver, pythonPath: seq<string>, rootDir: string, cwd: string)
      returns (logged: seq<string>)
      modifies this`imports
      ensures source.None? ==> imports == old(imports) && logged == []
      ensures source.Some? ==>
        var parsed := ParsedImports(source.value);
        imports == ResolvedImports(parsed, resolve, pythonPath, rootDir, cwd) &&
        logged == LoggedFailures(parsed, resolve, pythonPath)
    {
      if source.None? {
        return [];
      }
      var parsed := CollectImportNames(source.value);
      var found;
      found, logged := ResolveAll(parsed, resolve, pythonPath, rootDir, cwd);
      imports := found;
    }

    /**
     * `visit`: for each import that has a vertex in the graph, one `import`
     * edge from this file to it, added to this file's outgoing edges and to
     * that vertex's incoming edges. Nothing else changes.
     */
    method Visit(graph: map<Path, PyFile>)
      modifies this`outgoing, graph.Values`incoming
      ensures outgoing == old(outgoing) + LinkEdges(this, imports, graph)
      ensures forall v | v in graph.Values :: v.incoming == old(v.incoming) + EdgesInto(LinkEdges(this, imports, graph), v)
      ensures this !in graph.Values ==> incoming == old(incoming)
    {
      var todo := imports;
      ghost var done: set<Path> := {};
      while todo != {}
        invariant todo <= imports && done == imports - todo
        invariant outgoing == old(outgoing) + LinkEdges(this, done, graph)
        invariant forall v | v in graph.Values :: v.incoming == old(v.incoming) + EdgesInto(LinkEdges(this, done, graph), v)
        invariant this !in graph.Values ==> incoming == old(incoming)
        decreases todo
      {
        var i :| i in todo;
        todo := todo - {i};
        if i in graph {
          var d := graph[i];
          var e := Edge(Import, this, d);
          ghost var linked := LinkEdges(this, done, graph);
          LinkAddPresent(this, done, graph, i);
          label Before:
          outgoing := outgoing + {e};
          d.incoming := d.incoming + {e};
          forall v | v in graph.Values
            ensures v.incoming == old(v.incoming) + EdgesInto(linked + {e}, v)
          {
            EdgesIntoAdd(linked, e, v);
            assert v.incoming == old@Before(v.incoming) + (if v == d then {e} else {});
          }
        } else {
          LinkSkipsAbsent(this, done, graph, i);
        }
        done := done + {i};
      }
    }
  }

  // -------------------------------------------------------------- new_file

  /** What `new_file` makes of a path. */
  datatype FileKind = PythonSource | PythonCompiled | Unrecognized | NotAFile

  function Classify(disk: Node, p: Path, cwd: string): FileKind {
    if !IsFile(disk, p.abs, cwd) then NotAFile
    else if EndsWith(p.abs, ".py") then PythonSource
    else if EndsWith(p.abs, ".pyc") then PythonCompiled
    else Unrecognized
  }

  /** Only existing files ending in `.py` become vertices; compiled `.pyc` files never do. */
  lemma ClassifySource(disk: Node, p: Path, cwd: string)
    ensures Classify(disk, p, cwd) == PythonSource <==> IsFile(disk, p.abs, cwd) && EndsWith(p.abs, ".py")
    ensures EndsWith(p.abs, ".pyc") && IsFile(disk, p.abs, cwd) ==> Classify(disk, p, cwd) == PythonCompiled
  {
    if EndsWith(p.abs, ".pyc") {
      assert p.abs[|p.abs| - 1] == 'c';
    }
  }

  /**
   * `new_file(path, workspace, external)`: a `PyFile` for an existing
   * `.py` file, not loaded when `external`; `None` for everything else.
   */
  method NewFile(path: Path, disk: Node, source: Option<seq<Stmt>>, external: bool,
                 resolve: Resolver, pythonPath: seq<string>, rootDir: string, cwd: string)
    returns (r: Option<PyFile>)
    ensures r.Some? <==> Classify(disk, path, cwd) == PythonSource
    ensures r.Some? ==> fresh(r.value) && r.value.path == path
    ensures r.Some? ==> r.value.outgoing == {} && r.value.incoming == {}
    ensures r.Some? && (external || source.None?) ==> r.value.imports == {}
    ensures r.Some? && !external && source.Some? ==>
      r.value.imports == ResolvedImports(ParsedImports(source.value), resolve, pythonPath, rootDir, cwd)
  {
    if Classify(disk, path, cwd) == PythonSource {
      var f := new PyFile(path, source, external, resolve, pythonPath, rootDir, cwd);
      r := Some(f);
    } else {
      r := None;
    }
  }
}
