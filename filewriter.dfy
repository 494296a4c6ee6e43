/** Output paths: sanitising archive member names so that no component is a
    hidden name, creating the directories leading to a file, and choosing the
    path a file is written to. */
module FileWriters {
  import opened Wrappers

  // ---------------------------------------------------------------------------
  // Splitting and joining on '/'

  predicate NoSlash(s: string)
  {
    forall i :: 0 <= i < |s| ==> s[i] != '/'
  }

  /** The index of the first '/' of `s`. */
  function FirstSlash(s: string): (i: nat)
    requires !NoSlash(s)
    ensures i < |s| && s[i] == '/' && NoSlash(s[..i])
  {
    if s[0] == '/' then 0
    else
      var j := FirstSlash(s[1..]);
      assert s[1..][..j] == s[1..j + 1];
      j + 1
  }

  /** `s.split('/')`: never empty, and no piece holds a '/'. */
  function Split(s: string): (parts: seq<string>)
    ensures |parts| >= 1
    ensures forall k :: 0 <= k < |parts| ==> NoSlash(parts[k])
    decreases |s|
  {
    if NoSlash(s) then [s]
    else
      var i := FirstSlash(s);
      [s[..i]] + Split(s[i + 1..])
  }

  /** `'/'.join(parts)`. */
  function Join(parts: seq<string>): string
    requires |parts| >= 1
  {
    if |parts| == 1 then parts[0] else parts[0] + "/" + Join(parts[1..])
  }

  /** Joining the pieces of a split gives the string back. */
  lemma {:induction false} JoinSplit(s: string)
    ensures Join(Split(s)) == s
    decreases |s|
  {
    if !NoSlash(s) {
      var i := FirstSlash(s);
      JoinSplit(s[i + 1..]);
      assert Split(s)[1..] == Split(s[i + 1..]);
      assert s == s[..i] + "/" + s[i + 1..];
    }
  }

  /** Splitting a join of slash-free pieces gives the pieces back. */
  lemma {:induction false} SplitJoin(parts: seq<string>)
    requires |parts| >= 1 && forall k :: 0 <= k < |parts| ==> NoSlash(parts[k])
    ensures Split(Join(parts)) == parts
    decreases |parts|
  {
    if |parts| > 1 {
      SplitJoin(parts[1..]);
      SplitAfterPiece(parts[0], Join(parts[1..]), parts[1..]);
      assert parts == [parts[0]] + parts[1..];
    } else {
      assert Join(parts) == parts[0];
    }
  }

  /** A slash-free piece, a '/', then a string that splits into `rest`. */
  lemma SplitAfterPiece(p: string, t: string, rest: seq<string>)
    requires NoSlash(p) && Split(t) == rest
    ensures Split(p + "/" + t) == [p] + rest
  {
    var s := p + "/" + t;
    FirstSlashAfter(p, t);
    SplitStep(s);
    assert s[..|p|] == p;
    assert s[|p| + 1..] == t;
  }

  /** Beyond its first '/', a split continues with the split of the rest. */
  lemma SplitStep(s: string)
    requires !NoSlash(s)
    ensures Split(s) == [s[..FirstSlash(s)]] + Split(s[FirstSlash(s) + 1..])
  {
  }

  /** The first '/' after a slash-free piece is the one that ends it. */
  lemma {:induction false} FirstSlashAfter(p: string, t: string)
    requires NoSlash(p)
    ensures !NoSlash(p + "/" + t) && FirstSlash(p + "/" + t) == |p|
    decreases |p|
  {
    var s := p + "/" + t;
    assert s[|p|] == '/';
    if p != [] {
      FirstSlashAfter(p[1..], t);
      assert s[1..] == p[1..] + "/" + t;
      assert s[0] == p[0];
    }
  }

  /** The number of '/' characters in `s`. */
  function Slashes(s: string): nat
  {
    if s == [] then 0 else (if s[0] == '/' then 1 else 0) + Slashes(s[1..])
  }

  lemma {:induction false} SlashesAppend(a: string, b: string)
    ensures Slashes(a + b) == Slashes(a) + Slashes(b)
    decreases |a|
  {
    if a != [] {
      SlashesAppend(a[1..], b);
      assert (a + b)[1..] == a[1..] + b;
      assert (a + b)[0] == a[0];
    } else {
      assert a + b == b;
    }
  }

  lemma {:induction false} NoSlashCount(s: string)
    requires NoSlash(s)
    ensures Slashes(s) == 0
    decreases |s|
  {
    if s != [] {
      NoSlashCount(s[1..]);
    }
  }

  /** A path splits into one more component than it has slashes. */
  lemma {:induction false} SplitCount(s: string)
    ensures |Split(s)| == Slashes(s) + 1
    decreases |s|
  {
    if NoSlash(s) {
      NoSlashCount(s);
    } else {
      var i := FirstSlash(s);
      SplitCount(s[i + 1..]);
      assert s == s[..i] + ("/" + s[i + 1..]);
      SlashesAppend(s[..i], "/" + s[i + 1..]);
      SlashesAppend("/", s[i + 1..]);
      NoSlashCount(s[..i]);
    }
  }

  // ---------------------------------------------------------------------------
  // sanitizePath

  /** A component that starts with '.' but is not exactly '.'. */
  predicate Hidden(d: string)
  {
    |d| > 0 && d[0] == '.' && d != "."
  }

  /** One component of `sanitizePath`: a hidden name gets 'data' in front. */
  function SanitizeComponent(d: string): (r: string)
    ensures !Hidden(r)
    ensures NoSlash(d) ==> NoSlash(r)
    ensures Hidden(d) ==> r == "data" + d
    ensures !Hidden(d) ==> r == d
  {
    if Hidden(d) then "data" + d else d
  }

  /** Every component of `parts`, sanitised. */
  function SanitizeAll(parts: seq<string>): (r: seq<string>)
    ensures |r| == |parts|
    ensures forall k :: 0 <= k < |r| ==> r[k] == SanitizeComponent(parts[k])
  {
    seq(|parts|, k requires 0 <= k < |parts| => SanitizeComponent(parts[k]))
  }

  /** The path `sanitizePath` returns. */
  function Sanitized(path: string): string
  {
    Join(SanitizeAll(Split(path)))
  }

  /** `sanitizePath(path)`: the sanitised path, and whether the change was
      logged (exactly when the path changed). */
  method SanitizePath(path: string) returns (r: string, warned: bool)
    ensures r == Sanitized(path)
    ensures warned <==> r != path
  {
    var dirs := Split(path);
    var res: seq<string> := [];
    var i := 0;
    while i < |dirs|
      invariant 0 <= i <= |dirs|
      invariant res == SanitizeAll(dirs[..i])
    {
      var d := dirs[i];
      if |d| > 0 && d[0] == '.' && d != "." {
        d := "data" + d;
      }
      res := res + [d];
      i := i + 1;
    }
    assert dirs[..i] == dirs;
    r := Join(res);
    warned := r != path;
  }

  /** The components of a sanitised path are the input's components, each
      sanitised: the count is preserved and only hidden names change. */
  lemma SanitizedComponents(path: string)
    ensures Split(Sanitized(path)) == SanitizeAll(Split(path))
    ensures |Split(Sanitized(path))| == |Split(path)|
  {
    SplitJoin(SanitizeAll(Split(path)));
  }

  /** Sanitising a sanitised path changes nothing. */
  lemma SanitizeIdempotent(path: string)
    ensures Sanitized(Sanitized(path)) == Sanitized(path)
  {
    SanitizedComponents(path);
    var parts := SanitizeAll(Split(path));
    assert SanitizeAll(parts) == parts;
  }

  /** The path comes back unchanged exactly when none of its components is a
      hidden name. */
  lemma SanitizedUnchanged(path: string)
    ensures Sanitized(path) == path <==> forall k :: 0 <= k < |Split(path)| ==> !Hidden(Split(path)[k])
  {
    var parts := Split(path);
    JoinSplit(path);
    SplitJoin(SanitizeAll(parts));
    if Sanitized(path) == path {
      assert SanitizeAll(parts) == parts;
    }
    if forall k :: 0 <= k < |parts| ==> !Hidden(parts[k]) {
      assert SanitizeAll(parts) == parts;
    }
  }

  // ---------------------------------------------------------------------------
  // mkdir

  /** The directories `mkdir` creates for the components `dirs`, in order: each
      non-empty join of the first one, two, ... components. */
  function Prefixes(dirs: seq<string>, i: nat): (r: seq<string>)
    requires i <= |dirs|
    ensures forall k :: 0 <= k < |r| ==> r[k] != ""
    decreases |dirs| - i
  {
    if i == |dirs| then []
    else
      var p := Join(dirs[..i + 1]);
      (if p != "" then [p] else []) + Prefixes(dirs, i + 1)
  }

  /** One step of `Prefixes`: the path of the first `i + 1` parts, unless empty. */
  lemma PrefixesStep(dirs: seq<string>, i: nat)
    requires i < |dirs|
    ensures var p := Join(dirs[..i + 1]);
      Prefixes(dirs, i) == (if p != "" then [p] else []) + Prefixes(dirs, i + 1)
  {
  }

  lemma ConsAssoc(a: seq<string>, x: string, c: seq<string>)
    ensures a + [x] + c == a + ([x] + c)
  {
  }

  /** The directories of the file system, by path. */
  class Disk {
    var dirs: set<string>

    constructor(existing: set<string>)
      ensures dirs == existing
    {
      dirs := existing;
    }

    /** `mkdir(path)`: sanitise the path and create every non-empty prefix of
        it, shortest first; one that exists already is skipped. The directories
        attempted are returned with the path. */
    method Mkdir(path: string) returns (r: string, attempts: seq<string>)
      modifies this
      ensures r == Sanitized(path)
      ensures attempts == (if r == "" then [] else Prefixes(Split(r), 0))
      ensures dirs == old(dirs) + set d | d in attempts
    {
      var warned;
      r, warned := SanitizePath(path);
      attempts := [];
      if r != "" {
        var parts := Split(r);
        var i := 0;
        while i < |parts|
          invariant 0 <= i <= |parts|
          invariant attempts + Prefixes(parts, i) == Prefixes(parts, 0)
          invariant dirs == old(dirs) + set d | d in attempts
        {
          var p := Join(parts[..i + 1]);
          PrefixesStep(parts, i);
          if p != "" {
            dirs := dirs + {p};
            ConsAssoc(attempts, p, Prefixes(parts, i + 1));
            attempts := attempts + [p];
          } else {
            assert [] + Prefixes(parts, i + 1) == Prefixes(parts, i + 1);
          }
          i := i + 1;
        }
        assert attempts + [] == attempts;
      }
    }

    /** `FileWriter._open(file)`: the path written to. The directory part of
        the sanitised name is created; an empty one becomes '.', so nothing is
        written at the root; a target that is an existing directory receives
        the file inside it under the same name. */
    method Open(file: string) returns (target: string)
      modifies this
      ensures target == OpenPath(file, dirs)
      ensures dirs == old(dirs) + Created(file)
    {
      var clean, warned := SanitizePath(file);
      var (head, name) := PathSplit(clean);
      var path, attempts := Mkdir(head);
      if path == "" {
        path := ".";
      }
      path := path + "/" + name;
      if path in dirs {
        path := path + "/" + name;
      }
      target := path;
    }
  }

  /** The directories `_open(file)` creates. */
  function Created(file: string): set<string>
  {
    var head := PathSplit(Sanitized(file)).0;
    var r := Sanitized(head);
    var attempts := if r == "" then [] else Prefixes(Split(r), 0);
    set d | d in attempts
  }

  /** The name `_open(file)` keeps: the last component of the sanitised path. */
  function TargetName(file: string): string
  {
    PathSplit(Sanitized(file)).1
  }

  /** The directory `_open(file)` opens in, with a trailing '/': the directory
      made from the sanitised path's head, or '.' when that is empty. */
  function TargetParent(file: string): (parent: string)
    ensures |parent| > 0 && parent[|parent| - 1] == '/'
  {
    var dir := Sanitized(PathSplit(Sanitized(file)).0);
    (if dir == "" then "." else dir) + "/"
  }

  /** The path `_open(file)` opens, given the directories that exist once its
      directory has been created. */
  function OpenPath(file: string, existing: set<string>): (target: string)
  {
    Redirected(TargetParent(file), TargetName(file), existing)
  }

  /** Every directory `mkdir` creates is a proper prefix of the next one, so a
      parent is always created before its child. */
  lemma {:induction false} PrefixesOrdered(dirs: seq<string>, i: nat)
    requires i <= |dirs|
    ensures var r := Prefixes(dirs, i);
      forall k :: 0 <= k < |r| - 1 ==> |r[k]| < |r[k + 1]| && r[k + 1][..|r[k]|] == r[k]
    decreases |dirs| - i
  {
    if i < |dirs| {
      PrefixesOrdered(dirs, i + 1);
      var p := Join(dirs[..i + 1]);
      var rest := Prefixes(dirs, i + 1);
      if p != "" && |rest| > 0 {
        PrefixesStart(dirs, i + 1);
        var j :| i + 1 < j <= |dirs| && rest[0] == Join(dirs[..j]);
        JoinPrefix(dirs, i + 1, j);
        ConsOrdered(p, rest);
      } else if p == "" {
        assert Prefixes(dirs, i) == rest;
      } else {
        assert Prefixes(dirs, i) == [p];
      }
    }
  }

  /** Putting a proper prefix of its first element before an ordered chain
      keeps it ordered. */
  lemma ConsOrdered(p: string, rest: seq<string>)
    requires |rest| > 0 && |p| < |rest[0]| && rest[0][..|p|] == p
    requires forall k :: 0 <= k < |rest| - 1 ==> |rest[k]| < |rest[k + 1]| && rest[k + 1][..|rest[k]|] == rest[k]
    ensures var r := [p] + rest;
      forall k :: 0 <= k < |r| - 1 ==> |r[k]| < |r[k + 1]| && r[k + 1][..|r[k]|] == r[k]
  {
    var r := [p] + rest;
    assert forall k :: 0 <= k < |rest| ==> r[k + 1] == rest[k];
  }

  /** When the path is not empty, the last directory created is the path. */
  lemma {:induction false} PrefixesEndWithPath(dirs: seq<string>, i: nat)
    requires i < |dirs| && Join(dirs) != ""
    ensures var r := Prefixes(dirs, i);
      |r| > 0 && r[|r| - 1] == Join(dirs)
    decreases |dirs| - i
  {
    var p := Join(dirs[..i + 1]);
    if i + 1 == |dirs| {
      assert dirs[..i + 1] == dirs;
      assert Prefixes(dirs, i) == [p];
    } else {
      PrefixesEndWithPath(dirs, i + 1);
      var rest := Prefixes(dirs, i + 1);
      var r := Prefixes(dirs, i);
      assert r == (if p != "" then [p] else []) + rest;
      assert r[|r| - 1] == rest[|rest| - 1];
    }
  }

  /** The first directory after index `i` joins at least `i + 1` components. */
  lemma {:induction false} PrefixesStart(dirs: seq<string>, i: nat)
    requires i <= |dirs| && |Prefixes(dirs, i)| > 0
    ensures exists j :: i < j <= |dirs| && Prefixes(dirs, i)[0] == Join(dirs[..j])
    decreases |dirs| - i
  {
    var p := Join(dirs[..i + 1]);
    if p == "" {
      assert Prefixes(dirs, i) == Prefixes(dirs, i + 1);
      PrefixesStart(dirs, i + 1);
    }
  }

  /** A join of fewer leading components is a proper prefix of a join of more. */
  lemma {:induction false} JoinPrefix(dirs: seq<string>, i: nat, j: nat)
    requires 1 <= i < j <= |dirs|
    ensures var a := Join(dirs[..i]); var b := Join(dirs[..j]);
      |a| < |b| && b[..|a|] == a
    decreases i
  {
    var a := Join(dirs[..i]);
    var b := Join(dirs[..j]);
    assert b == dirs[0] + "/" + Join(dirs[..j][1..]);
    assert dirs[..j][1..] == dirs[1..][..j - 1];
    if i == 1 {
      assert a == dirs[0];
    } else {
      JoinPrefix(dirs[1..], i - 1, j - 1);
      assert dirs[..i][1..] == dirs[1..][..i - 1];
      assert a == dirs[0] + "/" + Join(dirs[1..][..i - 1]);
    }
  }

  // ---------------------------------------------------------------------------
  // os.path.split

  /** Drop trailing '/' characters. */
  function StripSlashes(s: string): (r: string)
    ensures |r| <= |s| && r == s[..|r|]
    ensures r == [] || r[|r| - 1] != '/'
  {
    if s != [] && s[|s| - 1] == '/' then StripSlashes(s[..|s| - 1]) else s
  }

  /** The index just after the last '/' of `s`, or 0 when there is none. */
  function AfterLastSlash(s: string): (i: nat)
    ensures i <= |s| && NoSlash(s[i..])
    ensures i > 0 ==> s[i - 1] == '/'
  {
    if s == [] then 0
    else if s[|s| - 1] == '/' then |s|
    else
      var i := AfterLastSlash(s[..|s| - 1]);
      assert s[i..] == s[..|s| - 1][i..] + [s[|s| - 1]];
      i
  }

  /** `os.path.split(p)` on a POSIX system: the name after the last '/', and the
      part before it without trailing slashes, unless that part is only
      slashes. */
  function PathSplit(p: string): (r: (string, string))
    ensures NoSlash(r.1)
    ensures |r.0| <= |p| && r.0 == p[..|r.0|] && |r.1| <= |p| && p[|p| - |r.1|..] == r.1
  {
    var i := AfterLastSlash(p);
    var head := p[..i];
    var tail := p[i..];
    if head != [] && !AllSlashes(head) then (StripSlashes(head), tail) else (head, tail)
  }

  predicate AllSlashes(s: string)
  {
    forall k :: 0 <= k < |s| ==> s[k] == '/'
  }

  /** The file is opened under its own name: inside `parent` (the directory
      made from its sanitised path, or '.' when that is empty, so never at the
      root for a bare name), and one level further down, under the same name,
      exactly when that target is a directory already. */
  function Redirected(parent: string, name: string, existing: set<string>): (t: string)
    requires |parent| > 0 && parent[|parent| - 1] == '/'
    ensures |t| >= |parent| + |name| && t[..|parent|] == parent && t[|t| - |name| - 1..] == "/" + name
    ensures parent + name in existing <==> t == parent + name + "/" + name
  {
    var base := parent + name;
    assert base[|base| - |name| - 1..] == "/" + name;
    assert |base + "/" + name| > |base|;
    if base in existing then base + "/" + name else base
  }

  // ---------------------------------------------------------------------------
  // FileWriter.open

  /** The static `FileWriter.open(path, mode)` passes the unbound name `file`
      instead of `path`: it always raises NameError. */
  function StaticOpen(path: string): (r: Result<string>)
    ensures r.Err? && r.error == NameError
  {
    Err(NameError)
  }
}
