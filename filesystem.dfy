/**
 * An abstract disk: a tree of directories keyed by entry name, whose
 * files hold either a JSON value or text that does not parse as JSON.
 * It stands in for the operating system calls the workspace makes
 * (`exists`, `isdir`, `isfile`, `makedirs`, reading and writing a file).
 */
module FileSystem {
  import opened Wrappers
  import opened Paths

  /** A decoded JSON document; numbers are integers in this model. */
  datatype Json =
    | JNull
    | JBool(b: bool)
    | JNum(n: int)
    | JStr(s: string)
    | JArray(items: seq<Json>)
    | JObject(fields: map<string, Json>)

  /** A file whose text decodes to `json` (`None`: it does not decode), or a directory. */
  datatype Node = File(json: Option<Json>) | Dir(children: map<string, Node>)

  datatype FsError = NotADirectory | IsADirectory | NoParent

  /** Every entry name is a plain name: no separator, not empty, not `.` or `..`. */
  predicate WellFormed(n: Node) {
    match n
    case File(_) => true
    case Dir(ch) => forall k | k in ch :: IsPlainName(k) && WellFormed(ch[k])
  }

  /** The entry reached by following `names` from `n`. */
  function Lookup(n: Node, names: seq<string>): (r: Option<Node>)
    ensures names == [] ==> r == Some(n)
    ensures r.Some? && names != [] ==> n.Dir?
  {
    if names == [] then Some(n)
    else match n
      case File(_) => None
      case Dir(ch) => if names[0] in ch then Lookup(ch[names[0]], names[1..]) else None
  }

  lemma {:induction false} LookupAppend(n: Node, a: seq<string>, b: seq<string>)
    ensures Lookup(n, a + b) == (match Lookup(n, a) case None => None case Some(m) => Lookup(m, b))
    decreases |a|
  {
    if a != [] {
      assert (a + b)[0] == a[0];
      assert (a + b)[1..] == a[1..] + b;
      if n.Dir? && a[0] in n.children {
        var child := n.children[a[0]];
        LookupAppend(child, a[1..], b);
        assert Lookup(n, a + b) == Lookup(child, a[1..] + b);
        assert Lookup(n, a) == Lookup(child, a[1..]);
      }
    } else {
      assert a + b == b;
    }
  }

  /** `os.path.exists`. */
  predicate Exists(disk: Node, path: string, cwd: string) {
    Lookup(disk, Segments(path, cwd)).Some?
  }

  /** `os.path.isdir`. */
  predicate IsDir(disk: Node, path: string, cwd: string) {
    var r := Lookup(disk, Segments(path, cwd));
    r.Some? && r.value.Dir?
  }

  /** `os.path.isfile`. */
  predicate IsFile(disk: Node, path: string, cwd: string) {
    var r := Lookup(disk, Segments(path, cwd));
    r.Some? && r.value.File?
  }

  /**
   * `os.makedirs`: creates every missing directory along `names`; fails
   * when an entry along the way is a file. Unlike `os.makedirs`, a target
   * that is already a directory is a success here, not `FileExistsError`;
   * `InitializeWorkspace` refuses an existing path before it gets here.
   */
  function MakeDirs(n: Node, names: seq<string>): (r: Result<Node, FsError>)
    ensures r.Ok? ==> r.value.Dir?
    decreases |names|
  {
    match n
    case File(_) => Err(NotADirectory)
    case Dir(ch) =>
      if names == [] then Ok(n)
      else
        var child := if names[0] in ch then ch[names[0]] else Dir(map[]);
        match MakeDirs(child, names[1..])
        case Err(e) => Err(e)
        case Ok(c) => Ok(Dir(ch[names[0] := c]))
  }

  /** After `makedirs` succeeds, the directory is there. */
  lemma {:induction false} MakeDirsCreates(n: Node, names: seq<string>)
    requires MakeDirs(n, names).Ok?
    ensures var m := Lookup(MakeDirs(n, names).value, names); m.Some? && m.value.Dir?
    decreases |names|
  {
    if names != [] {
      var ch := n.children;
      var child := if names[0] in ch then ch[names[0]] else Dir(map[]);
      MakeDirsCreates(child, names[1..]);
    }
  }

  /** `makedirs` fails exactly when an entry along the way is a file. */
  lemma {:induction false} MakeDirsFails(n: Node, names: seq<string>)
    ensures MakeDirs(n, names).Err? <==>
      exists k :: 0 <= k <= |names| && Lookup(n, names[..k]).Some? && Lookup(n, names[..k]).value.File?
    decreases |names|
  {
    assert names[..0] == [];
    if n.Dir? && names != [] {
      var ch := n.children;
      var child := if names[0] in ch then ch[names[0]] else Dir(map[]);
      MakeDirsFails(child, names[1..]);
      var tail := names[1..];
      if MakeDirs(n, names).Err? {
        var k :| 0 <= k <= |tail| && Lookup(child, tail[..k]).Some? && Lookup(child, tail[..k]).value.File?;
        assert names[0] in ch;
        assert names[..k + 1][1..] == tail[..k];
      } else {
        forall k | 0 <= k <= |names|
          ensures !(Lookup(n, names[..k]).Some? && Lookup(n, names[..k]).value.File?)
        {
          if k > 0 {
            assert names[..k][1..] == tail[..k - 1];
            if names[0] in ch {
              assert Lookup(n, names[..k]) == Lookup(child, tail[..k - 1]);
            }
          }
        }
      }
    }
  }

  /**
   * `makedirs` leaves every entry that is not a directory along its own
   * path as it was: entries beside the path at any depth, and entries
   * below its end.
   */
  lemma {:induction false} MakeDirsElsewhere(n: Node, names: seq<string>, other: seq<string>)
    requires MakeDirs(n, names).Ok?
    requires |other| <= |names| ==> other != names[..|other|]
    ensures Lookup(MakeDirs(n, names).value, other) == Lookup(n, other)
    decreases |names|
  {
    if names != [] {
      var ch := n.children;
      var child := if names[0] in ch then ch[names[0]] else Dir(map[]);
      var c := MakeDirs(child, names[1..]).value;
      assert MakeDirs(n, names).value == Dir(ch[names[0] := c]);
      assert other != [] by {
        assert names[..0] == [];
      }
      if other[0] == names[0] {
        var rest := other[1..];
        assert |rest| <= |names[1..]| ==> rest != names[1..][..|rest|] by {
          if |rest| <= |names[1..]| {
            assert other == [other[0]] + rest;
            assert names[..|other|] == [names[0]] + names[1..][..|rest|];
          }
        }
        MakeDirsElsewhere(child, names[1..], rest);
        assert rest != [] ==> Lookup(Dir(map[]), rest) == None;
      }
    }
  }

  /**
   * Writing `content` to the entry `name` inside the directory at
   * `dirNames`: fails when the directory is missing or the entry is
   * itself a directory; otherwise replaces or creates the file.
   */
  function Put(n: Node, dirNames: seq<string>, name: string, content: Option<Json>): (r: Result<Node, FsError>)
    ensures r.Ok? ==> r.value.Dir?
    decreases |dirNames|
  {
    match n
    case File(_) => Err(NoParent)
    case Dir(ch) =>
      if dirNames == [] then
        if name in ch && ch[name].Dir? then Err(IsADirectory)
        else Ok(Dir(ch[name := File(content)]))
      else if dirNames[0] !in ch then Err(NoParent)
      else match Put(ch[dirNames[0]], dirNames[1..], name, content)
        case Err(e) => Err(e)
        case Ok(c) => Ok(Dir(ch[dirNames[0] := c]))
  }

  /** A successful write is read back as written. */
  lemma {:induction false} PutThenLookup(n: Node, dirNames: seq<string>, name: string, content: Option<Json>)
    requires Put(n, dirNames, name, content).Ok?
    ensures Lookup(Put(n, dirNames, name, content).value, dirNames + [name]) == Some(File(content))
    decreases |dirNames|
  {
    if dirNames != [] {
      assert (dirNames + [name])[1..] == dirNames[1..] + [name];
      PutThenLookup(n.children[dirNames[0]], dirNames[1..], name, content);
    }
  }

  /** The directory at `dirNames` exists and its entry `name`, if any, is not a directory. */
  predicate CanWrite(n: Node, dirNames: seq<string>, name: string) {
    var d := Lookup(n, dirNames);
    d.Some? && d.value.Dir? && !(name in d.value.children && d.value.children[name].Dir?)
  }

  /** A write succeeds exactly when the directory exists and the entry is not a directory. */
  lemma {:induction false} PutSucceeds(n: Node, dirNames: seq<string>, name: string, content: Option<Json>)
    ensures Put(n, dirNames, name, content).Ok? <==> CanWrite(n, dirNames, name)
    decreases |dirNames|
  {
    if dirNames != [] && n.Dir? && dirNames[0] in n.children {
      PutSucceeds(n.children[dirNames[0]], dirNames[1..], name, content);
    }
  }
}
