/**
 * A filesystem location (workspace/path.py): a canonical absolute string plus
 * the workspace root it was created against.
 *
 * The filesystem calls the class relies on are modelled lexically: `Realpath`
 * resolves `.`, `..` and repeated separators but follows no symbolic links, and
 * a relative input is resolved against the process working directory `cwd`,
 * which callers pass in.
 */
module Paths {

  const Sep: char := '/'

  // ------------------------------------------------------------------ strings

  predicate StartsWith(s: string, prefix: string) {
    |prefix| <= |s| && s[..|prefix|] == prefix
  }

  predicate EndsWith(s: string, suffix: string) {
    |suffix| <= |s| && s[|s| - |suffix|..] == suffix
  }

  /** `s.split(sep)`: the pieces between separators; there is always at least one. */
  function Split(s: string, sep: char): (r: seq<string>)
    ensures |r| >= 1
  {
    if |s| == 0 then [""]
    else
      var rest := Split(s[1..], sep);
      if s[0] == sep then [""] + rest
      else [[s[0]] + rest[0]] + rest[1..]
  }

  /** No piece holds the separator. */
  predicate SepFree(parts: seq<string>, sep: char) {
    forall i :: 0 <= i < |parts| ==> sep !in parts[i]
  }

  /** No piece of a split holds the separator. */
  lemma {:induction false} SplitSepFree(s: string, sep: char)
    ensures SepFree(Split(s, sep), sep)
    decreases |s|
  {
    if |s| > 0 {
      SplitSepFree(s[1..], sep);
      var rest := Split(s[1..], sep);
      var r := Split(s, sep);
      if s[0] == sep {
        assert r == [""] + rest;
        forall i | 0 < i < |r|
          ensures sep !in r[i]
        {
          assert r[i] == rest[i - 1];
        }
      } else {
        assert r == [[s[0]] + rest[0]] + rest[1..];
        assert sep !in rest[0];
        forall i | 0 < i < |r|
          ensures sep !in r[i]
        {
          assert r[i] == rest[i];
        }
      }
    }
  }

  /** `sep.join(parts)`. */
  function JoinWith(parts: seq<string>, sep: char): string
  {
    if |parts| == 0 then ""
    else if |parts| == 1 then parts[0]
    else parts[0] + [sep] + JoinWith(parts[1..], sep)
  }

  /** Joining the pieces of a split gives the string back. */
  lemma {:induction false} JoinSplit(s: string, sep: char)
    ensures JoinWith(Split(s, sep), sep) == s
  {
    if |s| > 0 {
      JoinSplit(s[1..], sep);
      var rest := Split(s[1..], sep);
      if s[0] == sep {
        assert Split(s, sep) == [""] + rest;
        assert ([""] + rest)[1..] == rest;
        assert s == [sep] + s[1..];
      } else {
        var r := [[s[0]] + rest[0]] + rest[1..];
        assert Split(s, sep) == r;
        assert r[1..] == rest[1..];
        if |rest| > 1 {
          assert JoinWith(rest, sep) == rest[0] + [sep] + JoinWith(rest[1..], sep);
          assert JoinWith(r, sep) == [s[0]] + rest[0] + [sep] + JoinWith(rest[1..], sep);
        }
        assert s == [s[0]] + s[1..];
      }
    }
  }

  lemma {:induction false} SplitNoSep(s: string, sep: char)
    requires sep !in s
    ensures Split(s, sep) == [s]
  {
    if |s| > 0 {
      SplitNoSep(s[1..], sep);
      assert s == [s[0]] + s[1..];
    }
  }

  /** `Split` of a string that starts with the character `c`. */
  lemma SplitCons(c: char, s: string, sep: char)
    ensures Split([c] + s, sep) ==
      if c == sep then [""] + Split(s, sep) else [[c] + Split(s, sep)[0]] + Split(s, sep)[1..]
  {
    assert ([c] + s)[1..] == s;
  }

  /** Extending the first piece commutes with appending further pieces. */
  lemma ConsHeadAppend(c: char, a: seq<string>, b: seq<string>)
    requires |a| >= 1
    ensures [[c] + (a + b)[0]] + (a + b)[1..] == ([[c] + a[0]] + a[1..]) + b
  {
    assert (a + b)[0] == a[0];
    assert (a + b)[1..] == a[1..] + b;
  }

  /** A separator between two strings splits them apart. */
  lemma {:induction false} SplitAppend(x: string, y: string, sep: char)
    ensures Split(x + [sep] + y, sep) == Split(x, sep) + Split(y, sep)
    decreases |x|
  {
    if |x| == 0 {
      assert x + [sep] + y == [sep] + y;
      SplitCons(sep, y, sep);
    } else {
      var c, t := x[0], x[1..];
      var a, b := Split(t, sep), Split(y, sep);
      assert x == [c] + t;
      assert x + [sep] + y == [c] + (t + [sep] + y);
      if c == sep {
        calc {
          Split([c] + (t + [sep] + y), sep);
        == { SplitCons(c, t + [sep] + y, sep); SplitAppend(t, y, sep); }
          [""] + (a + b);
        == { SplitCons(c, t, sep); }
          Split([c] + t, sep) + b;
        }
      } else {
        calc {
          Split([c] + (t + [sep] + y), sep);
        == { SplitCons(c, t + [sep] + y, sep); SplitAppend(t, y, sep); }
          [[c] + (a + b)[0]] + (a + b)[1..];
        == { ConsHeadAppend(c, a, b); }
          ([[c] + a[0]] + a[1..]) + b;
        == { SplitCons(c, t, sep); }
          Split([c] + t, sep) + b;
        }
      }
    }
  }

  /** Splitting a join gives the parts back, when no part holds the separator. */
  lemma {:induction false} SplitJoin(parts: seq<string>, sep: char)
    requires |parts| >= 1 && SepFree(parts, sep)
    ensures Split(JoinWith(parts, sep), sep) == parts
  {
    SplitNoSep(parts[0], sep);
    if |parts| > 1 {
      SplitAppend(parts[0], JoinWith(parts[1..], sep), sep);
      SplitJoin(parts[1..], sep);
      assert parts == [parts[0]] + parts[1..];
    }
  }

  lemma {:induction false} JoinWithSnoc(parts: seq<string>, x: string, sep: char)
    requires |parts| >= 1
    ensures JoinWith(parts + [x], sep) == JoinWith(parts, sep) + [sep] + x
  {
    if |parts| == 1 {
      assert (parts + [x])[1..] == [x];
    } else {
      assert (parts + [x])[1..] == parts[1..] + [x];
      JoinWithSnoc(parts[1..], x, sep);
    }
  }

  lemma {:induction false} JoinWithAppend(a: seq<string>, b: seq<string>, sep: char)
    requires |a| >= 1 && |b| >= 1
    ensures JoinWith(a + b, sep) == JoinWith(a, sep) + [sep] + JoinWith(b, sep)
  {
    if |a| == 1 {
      assert (a + b)[1..] == b;
    } else {
      assert (a + b)[1..] == a[1..] + b;
      JoinWithAppend(a[1..], b, sep);
    }
  }

  /** A join of names that are not empty starts with the first name. */
  lemma {:induction false} JoinWithStartsWithFirst(parts: seq<string>, sep: char)
    requires |parts| >= 1
    ensures StartsWith(JoinWith(parts, sep), parts[0])
  {
  }

  // ---------------------------------------------------- lexical resolution

  predicate IsAbs(s: string) {
    |s| > 0 && s[0] == Sep
  }

  /** A name that canonical form keeps: not empty, not `.` or `..`, no separator. */
  predicate IsPlainName(x: string) {
    x != "" && x != "." && x != ".." && Sep !in x
  }

  predicate AllPlain(names: seq<string>) {
    forall i :: 0 <= i < |names| ==> IsPlainName(names[i])
  }

  /** One name of a path: empty names and `.` vanish, `..` drops the last kept name (at `/` it stays). */
  function Step(acc: seq<string>, name: string): seq<string>
  {
    if name == "" || name == "." then acc
    else if name == ".." then (if |acc| == 0 then acc else acc[..|acc| - 1])
    else acc + [name]
  }

  /** Resolves `names` left to right, starting from the canonical names `acc`. */
  function Resolve(acc: seq<string>, names: seq<string>): (r: seq<string>)
    ensures AllPlain(acc) && SepFree(names, Sep) ==> AllPlain(r)
    decreases |names|
  {
    if |names| == 0 then acc else Resolve(Step(acc, names[0]), names[1..])
  }

  lemma {:induction false} ResolveAppend(acc: seq<string>, a: seq<string>, b: seq<string>)
    ensures Resolve(acc, a + b) == Resolve(Resolve(acc, a), b)
    decreases |a|
  {
    if |a| == 0 {
      assert a + b == b;
    } else {
      assert (a + b)[0] == a[0];
      assert (a + b)[1..] == a[1..] + b;
      ResolveAppend(Step(acc, a[0]), a[1..], b);
    }
  }

  /** Plain names are simply appended. */
  lemma {:induction false} ResolvePlain(acc: seq<string>, names: seq<string>)
    requires AllPlain(names)
    ensures Resolve(acc, names) == acc + names
    decreases |names|
  {
    if |names| > 0 {
      assert AllPlain(names[1..]) by {
        forall i | 0 <= i < |names[1..]| ensures IsPlainName(names[1..][i]) {
          assert names[1..][i] == names[i + 1];
        }
      }
      ResolvePlain(acc + [names[0]], names[1..]);
      assert acc + [names[0]] + names[1..] == acc + names;
    }
  }

  function Dots(k: nat): (r: seq<string>)
    ensures |r| == k && forall i :: 0 <= i < k ==> r[i] == ".."
  {
    seq(k, _ => "..")
  }

  /** Each `..` drops one name. */
  lemma {:induction false} ResolveDots(acc: seq<string>, k: nat)
    requires k <= |acc|
    ensures Resolve(acc, Dots(k)) == acc[..|acc| - k]
  {
    if k > 0 {
      assert Dots(k)[1..] == Dots(k - 1);
      ResolveDots(acc[..|acc| - 1], k - 1);
      assert acc[..|acc| - 1][..|acc| - 1 - (k - 1)] == acc[..|acc| - k];
    }
  }

  /** The canonical names of `p`: an absolute input is resolved from `/`, a relative one from `cwd`. */
  function Segments(p: string, cwd: string): (r: seq<string>)
    ensures AllPlain(r)
  {
    SplitSepFree(p, Sep);
    Resolve(Base(p, cwd), Split(p, Sep))
  }

  function Base(p: string, cwd: string): (r: seq<string>)
    ensures AllPlain(r)
  {
    SplitSepFree(cwd, Sep);
    if IsAbs(p) then [] else Resolve([], Split(cwd, Sep))
  }

  function JoinAbs(names: seq<string>): string {
    [Sep] + JoinWith(names, Sep)
  }

  /** An absolute path with no empty, `.` or `..` names and no trailing separator. */
  predicate IsCanonical(s: string) {
    IsAbs(s) && (s == [Sep] || AllPlain(Split(s[1..], Sep)))
  }

  lemma JoinAbsCanonical(names: seq<string>)
    requires AllPlain(names)
    ensures IsCanonical(JoinAbs(names))
  {
    if |names| > 0 {
      assert JoinAbs(names)[1..] == JoinWith(names, Sep);
      SplitJoin(names, Sep);
    }
  }

  /** `os.path.realpath`, lexically. */
  function Realpath(p: string, cwd: string): (r: string)
    ensures IsCanonical(r)
  {
    JoinAbsCanonical(Segments(p, cwd));
    JoinAbs(Segments(p, cwd))
  }

  /** A canonical path is its own real path, and its names are the pieces after the first `/`. */
  lemma {:induction false} CanonicalFixpoint(s: string, cwd: string)
    requires IsCanonical(s)
    ensures Segments(s, cwd) == (if s == [Sep] then [] else Split(s[1..], Sep))
    ensures Realpath(s, cwd) == s
  {
    var t := s[1..];
    assert s == [] + [Sep] + t;
    SplitAppend([], t, Sep);
    assert Split(s, Sep) == [""] + Split(t, Sep);
    ResolveAppend([], [""], Split(t, Sep));
    if s == [Sep] {
      assert t == [];
    } else {
      ResolvePlain([], Split(t, Sep));
      JoinSplit(t, Sep);
    }
  }

  /** Canonicalising twice is canonicalising once. */
  lemma RealpathIdempotent(p: string, cwd: string)
    ensures Realpath(Realpath(p, cwd), cwd) == Realpath(p, cwd)
  {
    CanonicalFixpoint(Realpath(p, cwd), cwd);
  }

  /** The names of a real path are those of the input. */
  lemma SegmentsOfRealpath(p: string, cwd: string)
    ensures Segments(Realpath(p, cwd), cwd) == Segments(p, cwd)
  {
    var names := Segments(p, cwd);
    CanonicalFixpoint(Realpath(p, cwd), cwd);
    if names != [] {
      assert Realpath(p, cwd)[1..] == JoinWith(names, Sep);
      SplitJoin(names, Sep);
    }
  }

  /** A separator between `a` and `b` resolves the names of `b` after those of `a`. */
  lemma {:induction false} ResolveAfterSep(base: seq<string>, a: string, b: string)
    ensures Resolve(base, Split(a + [Sep] + b, Sep)) == Resolve(Resolve(base, Split(a, Sep)), Split(b, Sep))
  {
    SplitAppend(a, b, Sep);
    ResolveAppend(base, Split(a, Sep), Split(b, Sep));
  }

  /** A trailing separator adds only an empty name, which resolves to nothing. */
  lemma {:induction false} ResolveTrailingSep(base: seq<string>, a: string)
    ensures Resolve(base, Split(a + [Sep], Sep)) == Resolve(base, Split(a, Sep))
  {
    assert a + [Sep] == a + [Sep] + "";
    ResolveAfterSep(base, a, "");
    assert Split("", Sep) == [""];
  }

  /** The names after a separator are resolved from the canonical names before it. */
  lemma {:induction false} SegmentsAfterSep(a: string, b: string, cwd: string)
    requires a != ""
    ensures Segments(a + [Sep] + b, cwd) == Resolve(Segments(a, cwd), Split(b, Sep))
  {
    assert Base(a + [Sep] + b, cwd) == Base(a, cwd) by {
      assert (a + [Sep] + b)[0] == a[0];
    }
    ResolveAfterSep(Base(a, cwd), a, b);
  }

  /** A trailing separator does not change the real path. */
  lemma {:induction false} TrailingSeparator(p: string, cwd: string)
    requires p != ""
    ensures Realpath(p + [Sep], cwd) == Realpath(p, cwd)
  {
    assert Base(p + [Sep], cwd) == Base(p, cwd) by {
      assert (p + [Sep])[0] == p[0];
    }
    ResolveTrailingSep(Base(p, cwd), p);
  }

  /** A `.` name does not change the real path. */
  lemma {:induction false} CurrentDirSegment(a: string, b: string, cwd: string)
    requires a != ""
    ensures Realpath(a + "/./" + b, cwd) == Realpath(a + "/" + b, cwd)
  {
    var sa := Segments(a, cwd);
    assert a + "/./" + b == a + [Sep] + ("." + [Sep] + b);
    assert a + "/" + b == a + [Sep] + b;
    calc {
      Segments(a + [Sep] + ("." + [Sep] + b), cwd);
    == { SegmentsAfterSep(a, "." + [Sep] + b, cwd); }
      Resolve(sa, Split("." + [Sep] + b, Sep));
    == { ResolveAfterSep(sa, ".", b); }
      Resolve(Resolve(sa, Split(".", Sep)), Split(b, Sep));
    == { SplitNoSep(".", Sep); }
      Resolve(sa, Split(b, Sep));
    == { SegmentsAfterSep(a, b, cwd); }
      Segments(a + [Sep] + b, cwd);
    }
  }

  /** A plain name followed by `..` does not change the real path. */
  lemma {:induction false} ParentDirSegment(a: string, x: string, b: string, cwd: string)
    requires a != "" && IsPlainName(x)
    ensures Realpath(a + "/" + x + "/../" + b, cwd) == Realpath(a + "/" + b, cwd)
  {
    var sa := Segments(a, cwd);
    assert a + "/" + x + "/../" + b == a + [Sep] + (x + [Sep] + (".." + [Sep] + b));
    assert a + "/" + b == a + [Sep] + b;
    calc {
      Segments(a + [Sep] + (x + [Sep] + (".." + [Sep] + b)), cwd);
    == { SegmentsAfterSep(a, x + [Sep] + (".." + [Sep] + b), cwd); }
      Resolve(sa, Split(x + [Sep] + (".." + [Sep] + b), Sep));
    == { ResolveAfterSep(sa, x, ".." + [Sep] + b); }
      Resolve(Resolve(sa, Split(x, Sep)), Split(".." + [Sep] + b, Sep));
    == { SplitNoSep(x, Sep); assert Resolve(sa, [x]) == sa + [x]; }
      Resolve(sa + [x], Split(".." + [Sep] + b, Sep));
    == { ResolveAfterSep(sa + [x], "..", b); }
      Resolve(Resolve(sa + [x], Split("..", Sep)), Split(b, Sep));
    == { SplitNoSep("..", Sep); assert (sa + [x])[..|sa|] == sa; }
      Resolve(sa, Split(b, Sep));
    == { SegmentsAfterSep(a, b, cwd); }
      Segments(a + [Sep] + b, cwd);
    }
  }

  /** `os.path.join(a, b)` for two components. */
  function Join(a: string, b: string): string
  {
    if IsAbs(b) then b
    else if a == "" || a[|a| - 1] == Sep then a + b
    else a + [Sep] + b
  }

  /** Joining a relative name onto `a` resolves its names from `a`'s canonical names. */
  lemma {:induction false} JoinSegments(a: string, b: string, cwd: string)
    requires !IsAbs(b)
    ensures Segments(Join(a, b), cwd) == Resolve(Segments(a, cwd), Split(b, Sep))
  {
    var base := Base(a, cwd);
    if a == "" {
      assert Join(a, b) == b;
      calc {
        Segments(a, cwd);
      == { assert Split(a, Sep) == [""]; }
        Resolve(base, [""]);
      ==
        base;
      == { assert !IsAbs(a) && !IsAbs(b); }
        Base(b, cwd);
      }
    } else if a[|a| - 1] == Sep {
      var a' := a[..|a| - 1];
      assert a == a' + [Sep];
      assert Join(a, b) == a' + [Sep] + b;
      assert Base(a' + [Sep] + b, cwd) == base by {
        assert (a' + [Sep] + b)[0] == a[0];
      }
      calc {
        Segments(a' + [Sep] + b, cwd);
      == { ResolveAfterSep(base, a', b); }
        Resolve(Resolve(base, Split(a', Sep)), Split(b, Sep));
      == { ResolveTrailingSep(base, a'); }
        Resolve(Segments(a, cwd), Split(b, Sep));
      }
    } else {
      SegmentsAfterSep(a, b, cwd);
    }
  }

  /** `os.path.basename`: what follows the last separator. */
  function Basename(s: string): (r: string)
    ensures Sep !in r
    ensures EndsWith(s, r)
    ensures |r| < |s| ==> s[|s| - |r| - 1] == Sep
  {
    if |s| == 0 || s[|s| - 1] == Sep then ""
    else
      var r := Basename(s[..|s| - 1]) + [s[|s| - 1]];
      assert s[|s| - |r|..] == s[..|s| - 1][|s| - |r|..] + [s[|s| - 1]];
      r
  }

  predicate AllSeps(s: string) {
    forall i :: 0 <= i < |s| ==> s[i] == Sep
  }

  /** `s.rstrip('/')`. */
  function StripTrailingSeps(s: string): (r: string)
    ensures StartsWith(s, r)
    ensures r == "" || r[|r| - 1] != Sep
  {
    if |s| == 0 || s[|s| - 1] != Sep then s else StripTrailingSeps(s[..|s| - 1])
  }

  /** `os.path.dirname`: up to the last separator, trailing separators stripped unless only separators are left. */
  function Dirname(s: string): string
  {
    var head := s[..|s| - |Basename(s)|];
    if head != "" && !AllSeps(head) then StripTrailingSeps(head) else head
  }

  lemma {:induction false} BasenameAfterSep(x: string, y: string)
    requires Sep !in y
    ensures Basename(x + [Sep] + y) == y
    decreases |y|
  {
    if |y| > 0 {
      var s := x + [Sep] + y;
      assert s[..|s| - 1] == x + [Sep] + y[..|y| - 1];
      BasenameAfterSep(x, y[..|y| - 1]);
      assert y == y[..|y| - 1] + [y[|y| - 1]];
    }
  }

  /** A join of plain names ends with a character that is not a separator. */
  lemma JoinWithPlainLastChar(names: seq<string>)
    requires |names| >= 1 && AllPlain(names)
    ensures var j := JoinWith(names, Sep); |j| > 0 && j[|j| - 1] != Sep
  {
    var last := names[|names| - 1];
    assert IsPlainName(last);
    if |names| > 1 {
      JoinWithSnoc(names[..|names| - 1], last, Sep);
      assert names[..|names| - 1] + [last] == names;
    }
  }

  /** A canonical path other than `/` is `/` followed by its plain names. */
  lemma CanonicalNames(w: string, cwd: string)
    requires IsCanonical(w) && w != [Sep]
    ensures var names := Segments(w, cwd);
      |names| >= 1 && w == JoinAbs(names)
  {
    CanonicalFixpoint(w, cwd);
    JoinSplit(w[1..], Sep);
    assert w == [Sep] + w[1..];
  }

  lemma BasenameOfJoinAbs(init: seq<string>, last: string)
    requires IsPlainName(last)
    ensures Basename(JoinAbs(init + [last])) == last
  {
    if init == [] {
      assert init + [last] == [last];
      assert JoinAbs(init + [last]) == [] + [Sep] + last;
      BasenameAfterSep([], last);
    } else {
      JoinWithSnoc(init, last, Sep);
      assert JoinAbs(init + [last]) == JoinAbs(init) + [Sep] + last;
      BasenameAfterSep(JoinAbs(init), last);
    }
  }

  /** The directory part of `d/last` is `d`, when `d` is absolute, not `/` and has no trailing separator. */
  lemma {:induction false} DirnameAfterSep(d: string, last: string)
    requires |d| >= 2 && d[0] == Sep && d[1] != Sep && d[|d| - 1] != Sep
    requires IsPlainName(last)
    ensures Dirname(d + [Sep] + last) == d
  {
    var w := d + [Sep] + last;
    var head := d + [Sep];
    BasenameAfterSep(d, last);
    assert w[..|w| - |last|] == head;
    assert !AllSeps(head) by {
      assert head[1] == d[1];
    }
    assert StripTrailingSeps(head) == d by {
      assert head[..|head| - 1] == d;
    }
  }

  lemma {:induction false} DirnameOfJoinAbs(init: seq<string>, last: string)
    requires AllPlain(init) && IsPlainName(last)
    ensures Dirname(JoinAbs(init + [last])) == JoinAbs(init)
  {
    var w := JoinAbs(init + [last]);
    if init == [] {
      assert init + [last] == [last];
      assert w == [] + [Sep] + last;
      BasenameAfterSep([], last);
      assert w[..|w| - |last|] == [Sep];
      assert AllSeps([Sep]);
    } else {
      var d := JoinAbs(init);
      JoinWithSnoc(init, last, Sep);
      assert w == d + [Sep] + last;
      JoinWithStartsWithFirst(init, Sep);
      JoinWithPlainLastChar(init);
      assert IsPlainName(init[0]);
      assert d[1] == init[0][0];
      DirnameAfterSep(d, last);
    }
  }

  /** The canonical names of `/` followed by plain names are those names. */
  lemma SegmentsOfJoinAbs(names: seq<string>, cwd: string)
    requires AllPlain(names)
    ensures Segments(JoinAbs(names), cwd) == names
  {
    JoinAbsCanonical(names);
    CanonicalFixpoint(JoinAbs(names), cwd);
    if names != [] {
      assert JoinAbs(names)[1..] == JoinWith(names, Sep);
      SplitJoin(names, Sep);
    }
  }

  /** Joining a plain name onto `/` followed by names appends it to the names. */
  lemma JoinOntoJoinAbs(init: seq<string>, last: string)
    requires AllPlain(init) && IsPlainName(last)
    ensures Join(JoinAbs(init), last) == JoinAbs(init + [last])
  {
    assert !IsAbs(last);
    if init == [] {
      assert init + [last] == [last];
      assert JoinAbs(init) == [Sep];
    } else {
      JoinWithPlainLastChar(init);
      JoinWithSnoc(init, last, Sep);
      assert JoinAbs(init + [last]) == JoinAbs(init) + [Sep] + last;
    }
  }

  /** The parent of a canonical path other than `/` is canonical, and the basename joined onto it gives the path back. */
  lemma ParentOfCanonical(w: string, cwd: string)
    requires IsCanonical(w) && w != [Sep]
    ensures IsPlainName(Basename(w))
    ensures IsCanonical(Dirname(w))
    ensures Join(Dirname(w), Basename(w)) == w
    ensures Segments(Dirname(w), cwd) + [Basename(w)] == Segments(w, cwd)
  {
    var names := Segments(w, cwd);
    CanonicalNames(w, cwd);
    var init := names[..|names| - 1];
    var last := names[|names| - 1];
    assert names == init + [last];
    assert AllPlain(init) by {
      forall i | 0 <= i < |init| ensures IsPlainName(init[i]) {
        assert init[i] == names[i];
      }
    }
    assert IsPlainName(last);
    assert w == JoinAbs(init + [last]);
    BasenameOfJoinAbs(init, last);
    DirnameOfJoinAbs(init, last);
    JoinAbsCanonical(init);
    SegmentsOfJoinAbs(init, cwd);
    JoinOntoJoinAbs(init, last);
  }

  // ------------------------------------------------------------------- Path

  /** The stored fields of a `Path`; equality and hashing cover both. */
  datatype Path = Path(abs: string, wsRoot: string)

  /**
   * `Path(path, ws_root)`: an absolute input is canonicalised directly, a
   * relative one is joined onto `ws_root` first; `ws_root` is kept as given.
   */
  function Create(path: string, wsRoot: string, cwd: string): (p: Path)
    ensures p.wsRoot == wsRoot
    ensures IsCanonical(p.abs)
  {
    Path(if IsAbs(path) then Realpath(path, cwd) else Realpath(Join(wsRoot, path), cwd), wsRoot)
  }

  /** An absolute input ignores the root; a relative one is resolved from the root's canonical names. */
  lemma CreateResolvesAgainstRoot(path: string, wsRoot: string, cwd: string)
    ensures IsAbs(path) ==> Create(path, wsRoot, cwd).abs == Realpath(path, cwd)
    ensures !IsAbs(path) ==>
      Segments(Create(path, wsRoot, cwd).abs, cwd) == Resolve(Segments(wsRoot, cwd), Split(path, Sep))
  {
    if !IsAbs(path) {
      SegmentsOfRealpath(Join(wsRoot, path), cwd);
      JoinSegments(wsRoot, path, cwd);
    }
  }

  /** A canonical absolute input is stored unchanged. */
  lemma CreateCanonical(path: string, wsRoot: string, cwd: string)
    requires IsCanonical(path)
    ensures Create(path, wsRoot, cwd) == Path(path, wsRoot)
  {
    CanonicalFixpoint(path, cwd);
  }

  // ---------------------------------------------------------------- ordering

  /** Python's `<` on strings: lexicographic on code points. */
  predicate LexLess(a: string, b: string)
  {
    if |a| == 0 then |b| > 0
    else if |b| == 0 then false
    else if a[0] != b[0] then a[0] < b[0]
    else LexLess(a[1..], b[1..])
  }

  /** `__ge__`: `abs >= other.abs`. */
  predicate Ge(p: Path, q: Path) {
    LexLess(q.abs, p.abs) || p.abs == q.abs
  }

  /** `__gt__`: `abs > other.abs`. */
  predicate Gt(p: Path, q: Path) {
    LexLess(q.abs, p.abs)
  }

  /** `__le__`: `not self > other`. */
  predicate Le(p: Path, q: Path) {
    !Gt(p, q)
  }

  /** `__lt__`: `not self >= other`. */
  predicate Lt(p: Path, q: Path) {
    !Ge(p, q)
  }

  /** Exactly one of `a < b`, `a == b`, `b < a` holds. */
  lemma {:induction false} LexTrichotomy(a: string, b: string)
    ensures LexLess(a, b) || a == b || LexLess(b, a)
    ensures !(LexLess(a, b) && LexLess(b, a))
    ensures !(LexLess(a, b) && a == b)
  {
    if |a| > 0 && |b| > 0 && a[0] == b[0] {
      LexTrichotomy(a[1..], b[1..]);
      if a[1..] == b[1..] {
        assert a == [a[0]] + a[1..] && b == [b[0]] + b[1..];
      }
    }
  }

  lemma {:induction false} LexTransitive(a: string, b: string, c: string)
    requires LexLess(a, b) && LexLess(b, c)
    ensures LexLess(a, c)
  {
    if |a| > 0 && |b| > 0 && |c| > 0 && a[0] == b[0] && b[0] == c[0] {
      LexTransitive(a[1..], b[1..], c[1..]);
    }
  }

  /** The ordering operators compare `abs` alone, as a strict total order on it. */
  lemma OrderingComparesAbs(p: Path, q: Path, r: Path)
    ensures Lt(p, q) <==> LexLess(p.abs, q.abs)
    ensures Le(p, q) <==> LexLess(p.abs, q.abs) || p.abs == q.abs
    ensures Gt(p, q) <==> Lt(q, p)
    ensures Ge(p, q) <==> Le(q, p)
    ensures !Lt(p, p)
    ensures Lt(p, q) && Lt(q, r) ==> Lt(p, r)
  {
    LexTrichotomy(p.abs, q.abs);
    LexTrichotomy(p.abs, p.abs);
    LexTrichotomy(q.abs, r.abs);
    LexTrichotomy(p.abs, r.abs);
    if Lt(p, q) && Lt(q, r) {
      LexTransitive(p.abs, q.abs, r.abs);
    }
  }

  /** Two paths with the same `abs` and different roots are unequal, yet neither is less than the other. */
  lemma SameAbsDifferentRoot(p: Path, q: Path)
    requires p.abs == q.abs && p.wsRoot != q.wsRoot
    ensures p != q
    ensures !Lt(p, q) && !Lt(q, p)
    ensures Le(p, q) && Le(q, p)
  {
    LexTrichotomy(p.abs, q.abs);
  }

  // ---------------------------------------------------------- derived views

  function CommonPrefixLen(a: seq<string>, b: seq<string>): (n: nat)
    ensures n <= |a| && n <= |b|
    ensures a[..n] == b[..n]
    ensures n < |a| && n < |b| ==> a[n] != b[n]
  {
    if |a| == 0 || |b| == 0 || a[0] != b[0] then 0
    else
      var n := 1 + CommonPrefixLen(a[1..], b[1..]);
      assert a[..n] == [a[0]] + a[1..][..n - 1];
      assert b[..n] == [b[0]] + b[1..][..n - 1];
      n
  }

  /** The names of `relpath`: one `..` per root name past the common part, then the rest of the target. */
  function RelNames(start: seq<string>, target: seq<string>): seq<string>
  {
    var i := CommonPrefixLen(start, target);
    Dots(|start| - i) + target[i..]
  }

  /** The `rel` property: `os.path.relpath(abs, ws_root)`. */
  function Rel(p: Path, cwd: string): string
  {
    var names := RelNames(Segments(p.wsRoot, cwd), Segments(p.abs, cwd));
    if names == [] then "." else JoinWith(names, Sep)
  }

  /** The names of `relpath` lead from `start` back to `target`. */
  lemma ResolveRelNames(start: seq<string>, target: seq<string>)
    requires AllPlain(target)
    ensures SepFree(RelNames(start, target), Sep)
    ensures RelNames(start, target) == [] ==> start == target
    ensures RelNames(start, target) != [] ==> RelNames(start, target)[0] != ""
    ensures Resolve(start, RelNames(start, target)) == target
  {
    var i := CommonPrefixLen(start, target);
    var k := |start| - i;
    var rest := target[i..];
    var names := RelNames(start, target);
    assert names == Dots(k) + rest;
    assert AllPlain(rest) by {
      forall j | 0 <= j < |rest| ensures IsPlainName(rest[j]) {
        assert rest[j] == target[i + j];
      }
    }
    assert SepFree(names, Sep) by {
      forall j | 0 <= j < |names| ensures Sep !in names[j] {
        if j < k {
          assert names[j] == "..";
        } else {
          assert names[j] == rest[j - k];
        }
      }
    }
    if names != [] {
      if k > 0 {
        assert names[0] == "..";
      } else {
        assert names[0] == rest[0];
      }
    }
    calc {
      Resolve(start, names);
    == { ResolveAppend(start, Dots(k), rest); }
      Resolve(Resolve(start, Dots(k)), rest);
    == { ResolveDots(start, k); }
      Resolve(start[..i], rest);
    == { ResolvePlain(start[..i], rest); }
      start[..i] + rest;
    == { assert start[..i] == target[..i]; }
      target;
    }
    if names == [] {
      assert start == start[..i];
    }
  }

  /** `rel` is a relative, non-empty string whose pieces are the names of `relpath`. */
  lemma RelPieces(p: Path, cwd: string)
    ensures Rel(p, cwd) != "" && !IsAbs(Rel(p, cwd))
    ensures Resolve(Segments(p.wsRoot, cwd), Split(Rel(p, cwd), Sep))
         == Resolve(Segments(p.wsRoot, cwd), RelNames(Segments(p.wsRoot, cwd), Segments(p.abs, cwd)))
  {
    var start := Segments(p.wsRoot, cwd);
    var names := RelNames(start, Segments(p.abs, cwd));
    ResolveRelNames(start, Segments(p.abs, cwd));
    if names == [] {
      SplitNoSep(".", Sep);
      assert Split(Rel(p, cwd), Sep) == ["."];
    } else {
      JoinWithStartsWithFirst(names, Sep);
      SplitJoin(names, Sep);
    }
  }

  /** Re-creating a path from its `rel` against its own root gives the same path back. */
  lemma RelRoundTrip(p: Path, cwd: string)
    requires IsCanonical(p.abs)
    ensures Create(Rel(p, cwd), p.wsRoot, cwd) == p
  {
    var target := Segments(p.abs, cwd);
    var rel := Rel(p, cwd);
    RelPieces(p, cwd);
    ResolveRelNames(Segments(p.wsRoot, cwd), target);
    CreateResolvesAgainstRoot(rel, p.wsRoot, cwd);
    var got := Create(rel, p.wsRoot, cwd).abs;
    assert Segments(got, cwd) == target;
    CanonicalFixpoint(got, cwd);
    CanonicalFixpoint(p.abs, cwd);
    assert Realpath(got, cwd) == JoinAbs(target);
  }

  /** Names appended to `start` share all of `start` with it. */
  lemma CommonPrefixOfExtension(start: seq<string>, names: seq<string>)
    ensures CommonPrefixLen(start, start + names) == |start|
  {
  }

  /** The `rel` of a path created from a relative name of plain names is that name. */
  lemma RelOfCreate(path: string, root: string, cwd: string)
    requires !IsAbs(path) && AllPlain(Split(path, Sep))
    ensures Rel(Create(path, root, cwd), cwd) == path
  {
    var start := Segments(root, cwd);
    var names := Split(path, Sep);
    CreateResolvesAgainstRoot(path, root, cwd);
    ResolvePlain(start, names);
    CommonPrefixOfExtension(start, names);
    assert (start + names)[|start|..] == names;
    assert RelNames(start, start + names) == names;
    JoinSplit(path, Sep);
  }

  /** The `shortest` property: `rel` when strictly shorter than `abs`, otherwise `abs`. */
  function Shortest(p: Path, cwd: string): (r: string)
    ensures r == Rel(p, cwd) || r == p.abs
    ensures |r| <= |Rel(p, cwd)| && |r| <= |p.abs|
    ensures |Rel(p, cwd)| == |p.abs| ==> r == p.abs
  {
    var rel := Rel(p, cwd);
    if |rel| < |p.abs| then rel else p.abs
  }

  /** The `basename` property. */
  function PathBasename(p: Path): string
  {
    Basename(p.abs)
  }

  /** The `in_workspace` property, as written: a string-prefix test. */
  predicate InWorkspace(p: Path) {
    StartsWith(p.abs, p.wsRoot)
  }

  /** Whether the root's canonical names begin the path's: "lies under the root". */
  predicate UnderRoot(p: Path, cwd: string) {
    var start := Segments(p.wsRoot, cwd);
    var target := Segments(p.abs, cwd);
    |start| <= |target| && target[..|start|] == start
  }

  /** `/` followed by more names starts with `/` followed by fewer. */
  lemma JoinAbsExtends(start: seq<string>, names: seq<string>)
    requires |names| >= 1
    ensures StartsWith(JoinAbs(start + names), JoinAbs(start))
  {
    if start == [] {
      assert JoinAbs(start + names)[..1] == [Sep];
    } else {
      JoinWithAppend(start, names, Sep);
      assert JoinAbs(start + names) == JoinAbs(start) + ([Sep] + JoinWith(names, Sep));
    }
  }

  /** A relative name of plain names created under a canonical root is inside the workspace by both tests. */
  lemma CreatedBelowRoot(path: string, root: string, cwd: string)
    requires IsCanonical(root) && !IsAbs(path) && AllPlain(Split(path, Sep))
    ensures InWorkspace(Create(path, root, cwd))
    ensures UnderRoot(Create(path, root, cwd), cwd)
  {
    var p := Create(path, root, cwd);
    var start := Segments(root, cwd);
    var names := Split(path, Sep);
    CreateResolvesAgainstRoot(path, root, cwd);
    ResolvePlain(start, names);
    assert Segments(p.abs, cwd) == start + names;
    assert (start + names)[..|start|] == start;
    CanonicalFixpoint(p.abs, cwd);
    CanonicalFixpoint(root, cwd);
    assert p.abs == Realpath(p.abs, cwd) == JoinAbs(start + names);
    assert root == Realpath(root, cwd) == JoinAbs(start);
    JoinAbsExtends(start, names);
  }

  /** `UnderRoot` holds exactly when `rel` needs no `..` step. */
  lemma UnderRootIffNoParentStep(p: Path, cwd: string)
    ensures UnderRoot(p, cwd) <==> ".." !in RelNames(Segments(p.wsRoot, cwd), Segments(p.abs, cwd))
  {
    var start := Segments(p.wsRoot, cwd);
    var target := Segments(p.abs, cwd);
    var i := CommonPrefixLen(start, target);
    var names := RelNames(start, target);
    if UnderRoot(p, cwd) {
      assert forall k :: 0 <= k < |start| ==> start[k] == target[..|start|][k];
      assert i == |start|;
      assert names == target[i..];
      assert forall k :: 0 <= k < |names| ==> names[k] == target[i + k];
    } else {
      assert start[..|start|] == start;
      assert i < |start|;
      assert names[0] == "..";
    }
  }

  /** The canonical names of `/a/b` for plain `a` and `b`. */
  lemma SegmentsOfTwo(a: string, b: string, cwd: string)
    requires IsPlainName(a) && IsPlainName(b)
    ensures Segments([Sep] + a + [Sep] + b, cwd) == [a, b]
  {
    var names := [a, b];
    assert names[1..] == [b];
    assert JoinWith(names, Sep) == a + [Sep] + b;
    assert JoinAbs(names) == [Sep] + a + [Sep] + b;
    SegmentsOfJoinAbs(names, cwd);
  }

  /**
   * As written, `in_workspace` accepts a sibling of the root whose last
   * name merely extends the root's last name (`/foo/barbaz` against the
   * root `/foo/bar`), though that path does not lie under the root.
   */
  lemma {:induction false} InWorkspaceAcceptsSibling(x: string, y: string, z: string, cwd: string)
    requires IsPlainName(x) && IsPlainName(y) && z != "" && Sep !in z
    ensures InWorkspace(Path([Sep] + x + [Sep] + (y + z), [Sep] + x + [Sep] + y))
    ensures !UnderRoot(Path([Sep] + x + [Sep] + (y + z), [Sep] + x + [Sep] + y), cwd)
  {
    var root := [Sep] + x + [Sep] + y;
    var abs := [Sep] + x + [Sep] + (y + z);
    assert abs == root + z;
    assert abs[..|root|] == root;
    assert IsPlainName(y + z) by {
      assert (y + z)[..|y|] == y;
    }
    SegmentsOfTwo(x, y + z, cwd);
    SegmentsOfTwo(x, y, cwd);
    assert [x, y + z][..2] != [x, y] by {
      assert |y + z| != |y|;
      assert [x, y + z][..2][1] == y + z;
    }
  }

  // -------------------------------------------------------------- abbreviate

  function Max(a: int, b: int): int {
    if a < b then b else a
  }

  /** Characters kept from the end: two thirds of the budget (rounded down), or the whole basename when required and longer. */
  function SuffixBudget(res: string, maxLen: int, requireBasename: bool): (s: int)
    ensures s >= (2 * maxLen) / 3
    ensures requireBasename ==> s >= |Basename(res)|
  {
    var s := (2 * maxLen) / 3;
    if requireBasename && s < |Basename(res)| then |Basename(res)| else s
  }

  /** `res[:p] + '..' + res[-s:]`. */
  function Elide(res: string, p: nat, s: nat): (r: string)
    requires p <= |res| && s <= |res|
    ensures |r| == p + 2 + s
    ensures r[..p] == res[..p]
    ensures r[p..p + 2] == ".."
    ensures r[p + 2..] == res[|res| - s..]
  {
    var r := res[..p] + ".." + res[|res| - s..];
    assert r[p + 2..] == res[|res| - s..];
    r
  }

  /**
   * The elision of `abbreviate` applied to the text `res`: unchanged when it
   * fits; otherwise exactly `max_len` long, unless the whole basename is
   * required and needs more, in which case the marker and the basename.
   */
  function AbbreviateText(res: string, maxLen: int, requireBasename: bool): (r: string)
    requires maxLen >= 16
    ensures |res| <= maxLen ==> r == res
    ensures |res| > maxLen && !requireBasename ==> |r| == maxLen
    ensures |res| > maxLen && requireBasename ==> |r| == Max(maxLen, |Basename(res)| + 2)
  {
    if |res| <= maxLen then res
    else
      var suffix := SuffixBudget(res, maxLen, requireBasename);
      var prefix := if maxLen - suffix - 2 < 0 then 0 else maxLen - suffix - 2;
      Elide(res, prefix, suffix)
  }

  /** An elided result is a prefix of the text, the marker `..`, and the last `SuffixBudget` characters of the text. */
  lemma AbbreviateShape(res: string, maxLen: int, requireBasename: bool)
    requires maxLen >= 16 && |res| > maxLen
    ensures var r := AbbreviateText(res, maxLen, requireBasename);
      var s := SuffixBudget(res, maxLen, requireBasename);
      s <= |res| && s + 2 <= |r| &&
      r[|r| - s..] == res[|res| - s..] &&
      r[|r| - s - 2..|r| - s] == ".." &&
      r[..|r| - s - 2] == res[..|r| - s - 2]
  {
    var s := SuffixBudget(res, maxLen, requireBasename);
    assert (2 * maxLen) / 3 < maxLen;
    assert s <= |res|;
    var p := if maxLen - s - 2 < 0 then 0 else maxLen - s - 2;
    var r := Elide(res, p, s);
    assert AbbreviateText(res, maxLen, requireBasename) == r;
    assert |r| - s == p + 2;
  }

  /** A text that ends like `res` over `s` characters ends with every suffix of `res` of length at most `s`. */
  lemma EndsLike(r: string, res: string, s: nat, b: string)
    requires s <= |r| && s <= |res| && |b| <= s
    requires r[|r| - s..] == res[|res| - s..] && EndsWith(res, b)
    ensures EndsWith(r, b)
  {
    assert r[|r| - |b|..] == r[|r| - s..][s - |b|..];
    assert res[|res| - |b|..] == res[|res| - s..][s - |b|..];
  }

  /** With `require_basename`, an elided result ends with the whole basename. */
  lemma AbbreviateKeepsBasename(res: string, maxLen: int)
    requires maxLen >= 16 && |res| > maxLen
    ensures EndsWith(AbbreviateText(res, maxLen, true), Basename(res))
  {
    AbbreviateShape(res, maxLen, true);
    EndsLike(AbbreviateText(res, maxLen, true), res, SuffixBudget(res, maxLen, true), Basename(res));
  }

  /** When the basename leaves no room for a prefix, the result is the marker and the basename alone. */
  lemma AbbreviateClampedPrefix(res: string, maxLen: int)
    requires maxLen >= 16 && |res| > maxLen
    requires |Basename(res)| + 2 >= maxLen
    ensures AbbreviateText(res, maxLen, true) == ".." + Basename(res)
  {
    var r := AbbreviateText(res, maxLen, true);
    var b := Basename(res);
    AbbreviateShape(res, maxLen, true);
    assert SuffixBudget(res, maxLen, true) == |b|;
    assert |r| == |b| + 2;
    assert r == r[..2] + r[2..];
  }

  /** `Path.abbreviate(max_len, require_basename)`. */
  function Abbreviate(p: Path, maxLen: int, requireBasename: bool, cwd: string): (r: string)
    requires maxLen >= 16
    ensures |Shortest(p, cwd)| <= maxLen ==> r == Shortest(p, cwd)
    ensures |r| <= Max(maxLen, |Basename(Shortest(p, cwd))| + 2)
  {
    AbbreviateText(Shortest(p, cwd), maxLen, requireBasename)
  }

  /** Eliding `dir/name` keeps the first `p` characters of `dir` and the last `s` characters of the text. */
  lemma ElideParts(x: string, y: string, z: string, s: nat)
    requires |z| == s && |x| + |y| + |z| >= s
    ensures Elide(x + y + z, |x|, s) == x + ".." + z
  {
    var t := x + y + z;
    assert t[..|x|] == x;
    assert t[|t| - s..] == z;
  }

  /** Two names of eight characters together leave the suffix budget of 16 at ten characters. */
  lemma SuffixBudgetTwoNames(a: string, d: string, w: string)
    requires |d| + |w| == 8 && Sep !in w
    ensures SuffixBudget(a + [Sep] + d + [Sep] + w, 16, true) == 10
  {
    assert a + [Sep] + d + [Sep] + w == (a + [Sep] + d) + [Sep] + w;
    BasenameAfterSep(a + [Sep] + d, w);
  }

  /**
   * At budget 16 with the basename required, a text ending in two names of
   * ten characters together (separators included) keeps its first four
   * characters and those two names.
   */
  lemma AbbreviateTextKeepsTwoNames(a: string, d: string, w: string)
    requires |a| >= 4 && |a| + |d| + |w| > 14 && |d| + |w| == 8 && Sep !in w
    ensures AbbreviateText(a + [Sep] + d + [Sep] + w, 16, true) == a[..4] + ".." + ([Sep] + d + [Sep] + w)
  {
    var t := a + [Sep] + d + [Sep] + w;
    var z := [Sep] + d + [Sep] + w;
    SuffixBudgetTwoNames(a, d, w);
    assert t == a[..4] + a[4..] + z by {
      assert a == a[..4] + a[4..];
    }
    calc {
      AbbreviateText(t, 16, true);
    ==
      Elide(t, 4, 10);
    == { ElideParts(a[..4], a[4..], z, 10); }
      a[..4] + ".." + z;
    }
  }

  /**
   * A path whose first name differs from the root's first name shares no
   * names with the root: its `rel` climbs to `/` and spells out the whole
   * absolute path, so it is longer and `shortest` is `abs`.
   */
  lemma ShortestOfUnrelated(p: Path, cwd: string)
    requires IsCanonical(p.abs)
    requires Segments(p.wsRoot, cwd) != [] && Segments(p.abs, cwd) != []
    requires Segments(p.wsRoot, cwd)[0] != Segments(p.abs, cwd)[0]
    ensures Rel(p, cwd) == JoinWith(Dots(|Segments(p.wsRoot, cwd)|), Sep) + p.abs
    ensures Shortest(p, cwd) == p.abs
  {
    var start := Segments(p.wsRoot, cwd);
    var target := Segments(p.abs, cwd);
    var up := Dots(|start|);
    assert RelNames(start, target) == up + target by {
      assert CommonPrefixLen(start, target) == 0;
      assert target[0..] == target;
    }
    assert p.abs == [Sep] + JoinWith(target, Sep) by {
      CanonicalFixpoint(p.abs, cwd);
      JoinSplit(p.abs[1..], Sep);
      assert p.abs == [Sep] + p.abs[1..];
    }
    calc {
      Rel(p, cwd);
    ==
      JoinWith(up + target, Sep);
    == { JoinWithAppend(up, target, Sep); }
      JoinWith(up, Sep) + [Sep] + JoinWith(target, Sep);
    ==
      JoinWith(up, Sep) + p.abs;
    }
    assert |JoinWith(up, Sep)| >= 2 by {
      JoinWithStartsWithFirst(up, Sep);
    }
  }

  /** The canonical names of a plain relative name seen from `/`. */
  lemma SegmentsOfNameFromRoot(name: string, cwd: string)
    requires IsPlainName(name) && cwd == [Sep]
    ensures Segments(name, cwd) == [name]
  {
    SplitNoSep(name, Sep);
    assert !IsAbs(name) by { assert name[0] in name; }
    assert JoinAbs([]) == [Sep];
    SegmentsOfJoinAbs([], cwd);
    assert Base(name, cwd) == Segments([Sep], cwd) == [];
    calc {
      Segments(name, cwd);
    ==
      Resolve([], [name]);
    ==
      Resolve(Step([], name), []);
    ==
      [name];
    }
  }

  /**
   * A canonical path ending in two names of eight characters together,
   * created against a root it shares no first name with, abbreviates at
   * budget 16 to its first four characters, the marker and those two names.
   */
  lemma AbbreviateFromUnrelatedRoot(head: seq<string>, d: string, w: string, root: string, cwd: string)
    requires AllPlain(head) && head != [] && IsPlainName(d) && IsPlainName(w)
    requires |d| + |w| == 8 && |JoinAbs(head)| > 6
    requires Segments(root, cwd) != [] && Segments(root, cwd)[0] != head[0]
    ensures Abbreviate(Create(JoinAbs(head + [d, w]), root, cwd), 16, true, cwd)
         == JoinAbs(head)[..4] + ".." + ([Sep] + d + [Sep] + w)
  {
    var names := head + [d, w];
    assert AllPlain(names) by {
      forall i | 0 <= i < |names| ensures IsPlainName(names[i]) {
        if i < |head| { assert names[i] == head[i]; }
      }
    }
    var a := JoinAbs(head);
    assert JoinAbs(names) == a + [Sep] + d + [Sep] + w by {
      assert names == head + [d] + [w];
      JoinWithSnoc(head, d, Sep);
      JoinWithSnoc(head + [d], w, Sep);
    }
    JoinAbsCanonical(names);
    CreateCanonical(JoinAbs(names), root, cwd);
    SegmentsOfJoinAbs(names, cwd);
    var p := Create(JoinAbs(names), root, cwd);
    assert Segments(p.abs, cwd)[0] == head[0];
    ShortestOfUnrelated(p, cwd);
    calc {
      Abbreviate(p, 16, true, cwd);
    ==
      AbbreviateText(Shortest(p, cwd), 16, true);
    ==
      AbbreviateText(a + [Sep] + d + [Sep] + w, 16, true);
    == { AbbreviateTextKeepsTwoNames(a, d, w); }
      a[..4] + ".." + ([Sep] + d + [Sep] + w);
    }
  }

  /**
   * The elided example of the class's own tests where a prefix survives:
   * `/this/isareally/very/annoyingly/perversely/even/path`, created against
   * the root `foo` and seen from `/`, shown in at most 16 characters.
   */
  lemma AbbreviateExampleLongPath(names: seq<string>, root: string, cwd: string)
    requires names == ["this", "isareally", "very", "annoyingly", "perversely", "even", "path"]
    requires root == "foo" && cwd == [Sep]
    ensures Abbreviate(Create(JoinAbs(names), root, cwd), 16, true, cwd) == "/thi../even/path"
  {
    var head := names[..5];
    assert names == head + ["even", "path"];
    assert AllPlain(head) by {
      assert IsPlainName(head[0]) && IsPlainName(head[1]) && IsPlainName(head[2]);
      assert IsPlainName(head[3]) && IsPlainName(head[4]);
    }
    assert JoinWith(head, Sep) == "this" + [Sep] + JoinWith(head[1..], Sep);
    var a := JoinAbs(head);
    assert a[..4] == "/thi";
    SegmentsOfNameFromRoot(root, cwd);
    calc {
      Abbreviate(Create(JoinAbs(names), root, cwd), 16, true, cwd);
    ==
      Abbreviate(Create(JoinAbs(head + ["even", "path"]), root, cwd), 16, true, cwd);
    == { AbbreviateFromUnrelatedRoot(head, "even", "path", root, cwd); }
      a[..4] + ".." + ([Sep] + "even" + [Sep] + "path");
    ==
      "/thi../even/path";
    }
  }

  /** When the name after the last separator is too long for a prefix, only the marker and the name remain. */
  lemma AbbreviateLongName(dir: string, name: string, maxLen: int)
    requires maxLen >= 16 && Sep !in name && |name| + 2 >= maxLen && |dir| + 1 + |name| > maxLen
    ensures AbbreviateText(dir + [Sep] + name, maxLen, true) == ".." + name
  {
    BasenameAfterSep(dir, name);
    AbbreviateClampedPrefix(dir + [Sep] + name, maxLen);
  }

  /**
   * The elided example of the class's own tests where the basename alone is
   * too long: `/foo/this_is_a_very_long_basename` created against the root
   * `/bar`, from any working directory, shown with budget 16.
   */
  lemma AbbreviateExampleLongBasename(dir: string, name: string, root: string, cwd: string)
    requires dir == "foo" && name == "this_is_a_very_long_basename" && root == "/bar"
    ensures Abbreviate(Create(JoinAbs([dir, name]), root, cwd), 16, true, cwd) == ".." + name
  {
    var names := [dir, name];
    assert IsPlainName(dir) && IsPlainName(name);
    assert AllPlain(names);
    assert JoinAbs(names) == [Sep] + dir + [Sep] + name by {
      assert names[1..] == [name];
      assert JoinWith(names[1..], Sep) == name;
      assert JoinWith(names, Sep) == dir + [Sep] + name;
    }
    assert JoinAbs(["bar"]) == root;
    assert AllPlain(["bar"]);
    SegmentsOfJoinAbs(["bar"], cwd);
    JoinAbsCanonical(names);
    CreateCanonical(JoinAbs(names), root, cwd);
    SegmentsOfJoinAbs(names, cwd);
    var p := Create(JoinAbs(names), root, cwd);
    ShortestOfUnrelated(p, cwd);
    calc {
      Abbreviate(p, 16, true, cwd);
    ==
      AbbreviateText(([Sep] + dir) + [Sep] + name, 16, true);
    == { AbbreviateLongName([Sep] + dir, name, 16); }
      ".." + name;
    }
  }

  /**
   * A name directly below the root is shown as that name: its `rel` is
   * shorter than its `abs`, and it fits the default budget of 32.
   */
  lemma AbbreviateRelShorter(root: string, name: string, cwd: string)
    requires IsPlainName(name) && |name| <= 32
    ensures Abbreviate(Create(name, root, cwd), 32, true, cwd) == name
  {
    var p := Create(name, root, cwd);
    var start := Segments(root, cwd);
    SplitNoSep(name, Sep);
    assert !IsAbs(name) by { assert name[0] in name; }
    RelOfCreate(name, root, cwd);
    CreateResolvesAgainstRoot(name, root, cwd);
    ResolvePlain(start, [name]);
    CanonicalFixpoint(p.abs, cwd);
    assert p.abs == JoinAbs(start + [name]);
    if start == [] {
      assert JoinWith([name], Sep) == name;
    } else {
      JoinWithSnoc(start, name, Sep);
    }
    assert |p.abs| > |name|;
  }
}
