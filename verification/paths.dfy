/**
 * Paths as the storage engine builds them: `Path::new`, `PathBuf::join`,
 * `trim_start_matches('/')`, `strip_prefix`, `file_name`, `extension` and
 * `parent`, all on the component view of a path, and the lexical resolution
 * of a path against the process working directory.
 */
module Paths {
  import opened Wrappers

  /** The failures the storage engine reports. */
  datatype FsError =
    | NotFound       // "File not found", "Directory not found", "Source file not found"
    | SizeExceeded   // "File size exceeds maximum allowed size"
    | IoFailure      // an error returned by the operating system
    | InvalidPath    // `strip_prefix` found the path outside the base directory

  /** A component `Path::components` yields for a string: never empty, never `.`, no separator. */
  predicate IsPart(s: string) {
    s != "" && s != "." && '/' !in s
  }

  /** A component that names a directory entry: a part other than `..`. */
  predicate IsName(s: string) {
    IsPart(s) && s != ".."
  }

  /**
   * A path by its components; `rooted` is a leading `/`, and `trailing` a path
   * that ends in a separator or a `.` piece, which the operating system only
   * resolves to a directory.
   */
  datatype PathBuf = PathBuf(rooted: bool, parts: seq<string>, trailing: bool) {
    predicate WellFormed() {
      forall i | 0 <= i < |parts| :: IsPart(parts[i])
    }
  }

  /** A fully resolved location: the names from the root down. */
  type Key = seq<string>

  predicate IsKey(k: Key) {
    forall i | 0 <= i < |k| :: IsName(k[i])
  }

  // ---------------------------------------------------------------------------
  // Strings and components

  /** `str::split('/')`: the pieces between separators, empty pieces included. */
  function Split(s: string): (r: seq<string>)
    ensures |r| >= 1
    ensures forall i | 0 <= i < |r| :: '/' !in r[i]
  {
    if s == [] then [[]]
    else
      var rest := Split(s[1..]);
      if s[0] == '/' then [[]] + rest
      else [[s[0]] + rest[0]] + rest[1..]
  }

  /** The pieces put back together with single separators. */
  function Join(ps: seq<string>): string
  {
    if |ps| == 0 then []
    else if |ps| == 1 then ps[0]
    else ps[0] + "/" + Join(ps[1..])
  }

  /** Splitting and joining again gives back the string. */
  lemma {:induction false} JoinSplit(s: string)
    ensures Join(Split(s)) == s
  {
    if s != [] {
      var rest := Split(s[1..]);
      JoinSplit(s[1..]);
      if s[0] == '/' {
        assert Split(s) == [[]] + rest;
        assert Join(Split(s)) == [] + "/" + Join(rest);
      } else {
        assert Split(s) == [[s[0]] + rest[0]] + rest[1..];
        if |rest| == 1 {
          assert Join(Split(s)) == [s[0]] + rest[0];
        } else {
          assert Join(rest) == rest[0] + "/" + Join(rest[1..]);
          assert Join(Split(s)) == [s[0]] + rest[0] + "/" + Join(rest[1..]);
        }
        assert s == [s[0]] + s[1..];
      }
    }
  }

  /** A separator-free string is one piece. */
  lemma {:induction false} SplitNoSeparator(s: string)
    requires '/' !in s
    ensures Split(s) == [s]
  {
    if s != [] {
      SplitNoSeparator(s[1..]);
      assert s == [s[0]] + s[1..];
    }
  }

  /** A separator-free head splits off as the first piece. */
  lemma {:induction false} SplitCons(a: string, b: string)
    requires '/' !in a
    ensures Split(a + "/" + b) == [a] + Split(b)
  {
    if a == [] {
      assert a + "/" + b == "/" + b;
      assert ("/" + b)[1..] == b;
    } else {
      SplitCons(a[1..], b);
      assert (a + "/" + b)[1..] == a[1..] + "/" + b;
      assert [a[0]] + a[1..] == a;
    }
  }

  /** How `Split` treats the first character. */
  lemma SplitFirst(c: char, rest: string)
    ensures Split([c] + rest) == if c == '/' then [[]] + Split(rest) else [[c] + Split(rest)[0]] + Split(rest)[1..]
  {
    assert ([c] + rest)[0] == c && ([c] + rest)[1..] == rest;
  }

  /** Concatenation regroups. */
  lemma ConcatAssoc<T>(a: seq<T>, b: seq<T>, c: seq<T>)
    ensures a + (b + c) == (a + b) + c
  {
  }

  /** Gluing a head onto the first piece commutes with appending more pieces. */
  lemma GlueHead(h: string, xs: seq<string>, ys: seq<string>)
    requires |xs| > 0
    ensures [h + (xs + ys)[0]] + (xs + ys)[1..] == ([h + xs[0]] + xs[1..]) + ys
  {
    assert (xs + ys)[0] == xs[0];
    assert (xs + ys)[1..] == xs[1..] + ys;
    ConcatAssoc([h + xs[0]], xs[1..], ys);
  }

  /** One character in front of both sides keeps a split at a separator. */
  lemma SplitConcatStep(c: char, rest: string, b: string)
    requires Split(rest + "/" + b) == Split(rest) + Split(b)
    ensures Split([c] + rest + "/" + b) == Split([c] + rest) + Split(b)
  {
    assert [c] + rest + "/" + b == [c] + (rest + "/" + b);
    SplitFirst(c, rest + "/" + b);
    SplitFirst(c, rest);
    if c == '/' {
      ConcatAssoc([[]], Split(rest), Split(b));
    } else {
      GlueHead([c], Split(rest), Split(b));
    }
  }

  /** Splitting at a separator splits each side. */
  lemma {:induction false} SplitConcat(a: string, b: string)
    ensures Split(a + "/" + b) == Split(a) + Split(b)
  {
    if a == [] {
      assert a + "/" + b == ['/'] + b;
      SplitFirst('/', b);
    } else {
      assert a == [a[0]] + a[1..];
      SplitConcat(a[1..], b);
      SplitConcatStep(a[0], a[1..], b);
    }
  }

  /** The parts among the pieces, in order: empty pieces and `.` are dropped. */
  function KeepParts(ps: seq<string>): (r: seq<string>)
    ensures forall i | 0 <= i < |r| :: IsPart(r[i])
    ensures forall x :: x in r <==> x in ps && IsPart(x)
  {
    if ps == [] then []
    else if IsPart(ps[0]) then [ps[0]] + KeepParts(ps[1..])
    else KeepParts(ps[1..])
  }

  /** Pieces that are all parts are kept as they are. */
  lemma {:induction false} KeepPartsOfParts(ps: seq<string>)
    requires forall i | 0 <= i < |ps| :: IsPart(ps[i])
    ensures KeepParts(ps) == ps
  {
    if ps != [] {
      KeepPartsOfParts(ps[1..]);
    }
  }

  lemma KeepPartsCons(x: string, rest: seq<string>)
    ensures KeepParts([x] + rest) == if IsPart(x) then [x] + KeepParts(rest) else KeepParts(rest)
  {
    assert ([x] + rest)[0] == x && ([x] + rest)[1..] == rest;
  }

  lemma {:induction false} KeepPartsConcat(xs: seq<string>, ys: seq<string>)
    ensures KeepParts(xs + ys) == KeepParts(xs) + KeepParts(ys)
  {
    if xs == [] {
      assert xs + ys == ys;
    } else {
      var x, rest := xs[0], xs[1..];
      assert xs == [x] + rest;
      assert xs + ys == [x] + (rest + ys);
      KeepPartsConcat(rest, ys);
      KeepPartsCons(x, rest + ys);
      KeepPartsCons(x, rest);
      if IsPart(x) {
        calc {
          KeepParts(xs + ys);
          [x] + KeepParts(rest + ys);
          [x] + (KeepParts(rest) + KeepParts(ys));
          { ConcatAssoc([x], KeepParts(rest), KeepParts(ys)); }
          ([x] + KeepParts(rest)) + KeepParts(ys);
          KeepParts(xs) + KeepParts(ys);
        }
      }
    }
  }

  /** The non-root components of a path string, as `Path::components` yields them. */
  function Components(s: string): (r: seq<string>)
    ensures forall i | 0 <= i < |r| :: IsPart(r[i])
  {
    KeepParts(Split(s))
  }

  /** The components of two strings joined by a separator are those of each in turn. */
  lemma ComponentsConcat(a: string, b: string)
    ensures Components(a + "/" + b) == Components(a) + Components(b)
  {
    SplitConcat(a, b);
    KeepPartsConcat(Split(a), Split(b));
  }

  /** A string whose last piece is empty or `.`: it ends in a separator or `/.`, or is empty or `.`. */
  predicate DirSyntax(s: string) {
    var ps := Split(s);
    !IsPart(ps[|ps| - 1])
  }

  /** `Path::new(s)`. */
  function FromStr(s: string): (p: PathBuf)
    ensures p.WellFormed()
  {
    PathBuf(|s| > 0 && s[0] == '/', Components(s), DirSyntax(s))
  }

  /**
   * `PathBuf::join`: an absolute argument replaces the base, a relative one is
   * appended; an empty argument still adds a separator, so the result ends as
   * the argument does.
   */
  function JoinPath(base: PathBuf, s: string): (r: PathBuf)
  {
    var q := FromStr(s);
    if q.rooted then q else PathBuf(base.rooted, base.parts + q.parts, q.trailing)
  }

  /** `trim_start_matches('/')`. */
  function TrimLeadingSlashes(s: string): (r: string)
    ensures |r| <= |s| && r == s[|s| - |r|..]
    ensures r == [] || r[0] != '/'
    ensures forall i | 0 <= i < |s| - |r| :: s[i] == '/'
  {
    if s != [] && s[0] == '/' then TrimLeadingSlashes(s[1..]) else s
  }

  /** Leading separators contribute no component. */
  lemma {:induction false} ComponentsTrim(s: string)
    ensures Components(TrimLeadingSlashes(s)) == Components(s)
  {
    if s != [] && s[0] == '/' {
      ComponentsTrim(s[1..]);
      assert Split(s) == [[]] + Split(s[1..]);
    }
  }

  /** Leading separators do not change how a string ends. */
  lemma {:induction false} DirSyntaxTrim(s: string)
    ensures DirSyntax(TrimLeadingSlashes(s)) == DirSyntax(s)
  {
    if s != [] && s[0] == '/' {
      DirSyntaxTrim(s[1..]);
      assert Split(s) == [[]] + Split(s[1..]);
    }
  }

  /** After the last separator, a component ends a string naming any entry; nothing or `.` a directory. */
  lemma DirSyntaxAfterSeparator(s: string, name: string)
    requires '/' !in name
    ensures DirSyntax(s + "/" + name) <==> !IsPart(name)
  {
    SplitConcat(s, name);
    SplitNoSeparator(name);
  }

  /**
   * `get_absolute_path` (server/filesystem.rs:37-40): the leading separators are
   * trimmed so that `join` appends instead of replacing; the components of the
   * argument, `..` included, are appended to the base unchecked.
   */
  function AbsolutePath(base: PathBuf, relative: string): (r: PathBuf)
    ensures r.rooted == base.rooted
    ensures r.parts == base.parts + Components(relative)
    ensures r.trailing == DirSyntax(relative)
    ensures base.WellFormed() ==> r.WellFormed()
  {
    ComponentsTrim(relative);
    DirSyntaxTrim(relative);
    JoinPath(base, TrimLeadingSlashes(relative))
  }

  /**
   * `get_relative_path` (server/filesystem.rs:42-45): the component-wise
   * `strip_prefix` of the base, rendered with a single leading separator.
   */
  function RelativePath(base: PathBuf, absolute: PathBuf): (r: Result<string, FsError>)
    ensures r.Ok? <==> absolute.rooted == base.rooted && base.parts <= absolute.parts
    ensures r.Ok? ==> r.value == "/" + Join(absolute.parts[|base.parts|..])
    ensures r.Err? ==> r.error == InvalidPath
  {
    if absolute.rooted == base.rooted && base.parts <= absolute.parts
    then Ok("/" + Join(absolute.parts[|base.parts|..]))
    else Err(InvalidPath)
  }

  /** A relative path with no empty or `.` pieces once its leading separators are trimmed. */
  predicate Canonical(s: string) {
    var t := TrimLeadingSlashes(s);
    t == [] || forall x | x in Split(t) :: IsPart(x)
  }

  /**
   * Mapping a path into the store and back gives the path with exactly one
   * leading separator; `..` pieces survive because both directions are lexical.
   */
  lemma RelativeOfAbsolute(base: PathBuf, relative: string)
    requires Canonical(relative)
    ensures RelativePath(base, AbsolutePath(base, relative)) == Ok("/" + TrimLeadingSlashes(relative))
  {
    var t := TrimLeadingSlashes(relative);
    var abs := AbsolutePath(base, relative);
    assert abs.parts[|base.parts|..] == Components(relative);
    ComponentsTrim(relative);
    CanonicalJoin(t);
  }

  /** A string without empty or `.` pieces is the join of its components. */
  lemma CanonicalJoin(t: string)
    requires t == [] || forall x | x in Split(t) :: IsPart(x)
    ensures Join(Components(t)) == t
  {
    if t == [] {
      assert Split(t) == [[]];
    } else {
      var ps := Split(t);
      forall i | 0 <= i < |ps|
        ensures IsPart(ps[i])
      {
        assert ps[i] in ps;
      }
      KeepPartsOfParts(ps);
      JoinSplit(t);
    }
  }

  /** `Path::file_name`: the last component, none when the path ends in `..` or has no component. */
  function FileName(p: PathBuf): (r: Option<string>)
    ensures r.Some? <==> |p.parts| > 0 && p.parts[|p.parts| - 1] != ".."
    ensures r.Some? ==> r.value == p.parts[|p.parts| - 1]
  {
    if |p.parts| == 0 || p.parts[|p.parts| - 1] == ".." then None
    else Some(p.parts[|p.parts| - 1])
  }

  /**
   * `Path::parent`: the path without its last component, none for a path with
   * no component; a trailing separator is not a component.
   */
  function Parent(p: PathBuf): (r: Option<PathBuf>)
    ensures r.Some? <==> |p.parts| > 0
    ensures r.Some? ==> r.value.rooted == p.rooted && r.value.parts + [p.parts[|p.parts| - 1]] == p.parts
    ensures r.Some? ==> !r.value.trailing
  {
    if |p.parts| == 0 then None else Some(PathBuf(p.rooted, p.parts[..|p.parts| - 1], false))
  }

  /** The position of the last `.` in `s`, if any. */
  function LastDot(s: string): (r: Option<nat>)
    ensures r.Some? ==> r.value < |s| && s[r.value] == '.' && '.' !in s[r.value + 1..]
    ensures r.None? ==> '.' !in s
  {
    if s == [] then None
    else if s[|s| - 1] == '.' then Some(|s| - 1)
    else
      var r := LastDot(s[..|s| - 1]);
      assert s == s[..|s| - 1] + [s[|s| - 1]];
      r
  }

  /**
   * `Path::extension` of a file name: the text after the last `.`, none when
   * there is no `.` or the only `.` starts the name (as in `.bashrc`).
   */
  function Extension(name: string): (r: Option<string>)
    ensures r.Some? ==> '.' !in r.value && exists i :: 0 < i < |name| && name[i] == '.' && r.value == name[i + 1..]
    ensures r.None? ==> name == ".." || '.' !in name || (name[0] == '.' && '.' !in name[1..])
  {
    if name == ".." then None
    else match LastDot(name)
      case None => None
      case Some(i) =>
        if i == 0 then None else Some(name[i + 1..])
  }

  // ---------------------------------------------------------------------------
  // Lexical resolution

  /**
   * Resolution of the components from the root: a name descends, `..` climbs
   * one level, and `..` at the root stays at the root.
   */
  function Normalize(ps: seq<string>): (r: Key)
    ensures |r| <= |ps|
  {
    if ps == [] then []
    else
      var init := Normalize(ps[..|ps| - 1]);
      if ps[|ps| - 1] == ".." then (if init == [] then [] else init[..|init| - 1])
      else init + [ps[|ps| - 1]]
  }

  /** Resolving well-formed components lands on a key. */
  lemma {:induction false} NormalizeIsKey(ps: seq<string>)
    ensures (forall i | 0 <= i < |ps| :: IsPart(ps[i])) ==> IsKey(Normalize(ps))
  {
    if ps != [] {
      NormalizeIsKey(ps[..|ps| - 1]);
    }
  }

  /** Names appended after any components are appended to the resolved key. */
  lemma {:induction false} NormalizeAppendNames(ps: seq<string>, ns: seq<string>)
    requires forall i | 0 <= i < |ns| :: IsName(ns[i])
    ensures Normalize(ps + ns) == Normalize(ps) + ns
  {
    if ns == [] {
      assert ps + ns == ps;
    } else {
      var last, init := ns[|ns| - 1], ns[..|ns| - 1];
      NormalizeAppendNames(ps, init);
      assert (ps + ns)[..|ps + ns| - 1] == ps + init;
      assert (ps + ns)[|ps + ns| - 1] == last;
      assert init + [last] == ns;
      calc {
        Normalize(ps + ns);
        Normalize(ps + init) + [last];
        (Normalize(ps) + init) + [last];
        { ConcatAssoc(Normalize(ps), init, [last]); }
        Normalize(ps) + (init + [last]);
        Normalize(ps) + ns;
      }
    }
  }

  /** A key resolves to itself. */
  lemma NormalizeKey(k: Key)
    requires IsKey(k)
    ensures Normalize(k) == k
  {
    NormalizeAppendNames([], k);
    assert [] + k == k;
  }

  /** The location a path denotes, relative paths starting at the working directory. */
  function Resolve(cwd: Key, p: PathBuf): (r: Key)
    ensures IsKey(cwd) && p.WellFormed() ==> IsKey(r)
  {
    var start := if p.rooted then [] else cwd;
    NormalizeIsKey(start + p.parts);
    Normalize(start + p.parts)
  }

  /** Without `..` pieces, every component of a path string is a name. */
  lemma ComponentsAreNames(s: string)
    requires ".." !in Split(s)
    ensures forall i | 0 <= i < |Components(s)| :: IsName(Components(s)[i])
  {
    var ns := Components(s);
    forall i | 0 <= i < |ns| ensures IsName(ns[i]) {
      assert ns[i] in Split(s);
    }
  }

  /** Names appended to a path are appended to where it resolves. */
  lemma ResolveAppendNames(cwd: Key, p: PathBuf, ns: seq<string>, q: PathBuf)
    requires forall i | 0 <= i < |ns| :: IsName(ns[i])
    requires q.rooted == p.rooted && q.parts == p.parts + ns
    ensures Resolve(cwd, q) == Resolve(cwd, p) + ns
  {
    var start := if p.rooted then [] else cwd;
    NormalizeAppendNames(start + p.parts, ns);
    assert start + (p.parts + ns) == (start + p.parts) + ns;
  }

  /** A trailing `..` climbs one level from where the path resolves. */
  lemma ResolveAppendDotDot(cwd: Key, p: PathBuf, q: PathBuf)
    requires q.rooted == p.rooted && q.parts == p.parts + [".."]
    ensures var b := Resolve(cwd, p);
      Resolve(cwd, q) == if b == [] then [] else b[..|b| - 1]
  {
    var start := if p.rooted then [] else cwd;
    var ps := start + (p.parts + [".."]);
    assert ps[..|ps| - 1] == start + p.parts;
  }

  /** A path without `..` pieces stays inside the base directory. */
  lemma ContainedWithoutDotDot(cwd: Key, base: PathBuf, relative: string)
    requires ".." !in Split(relative)
    ensures Resolve(cwd, AbsolutePath(base, relative)) == Resolve(cwd, base) + Components(relative)
  {
    var ns := Components(relative);
    ComponentsAreNames(relative);
    ResolveAppendNames(cwd, base, ns, AbsolutePath(base, relative));
  }

  /**
   * `..` is not checked: from a base that resolves below the root, `../n`
   * reaches a sibling of the base directory.
   */
  lemma EscapeWithDotDot(cwd: Key, base: PathBuf, n: string)
    requires IsName(n)
    requires var b := Resolve(cwd, base); b != [] && b[|b| - 1] != n
    ensures var b := Resolve(cwd, base);
      Resolve(cwd, AbsolutePath(base, "../" + n)) == b[..|b| - 1] + [n] && !(b <= b[..|b| - 1] + [n])
  {
    var b := Resolve(cwd, base);
    SplitNoSeparator(n);
    SplitCons("..", n);
    assert ".." + "/" + n == "../" + n;
    KeepPartsOfParts(["..", n]);
    assert Components("../" + n) == ["..", n];
    var up := PathBuf(base.rooted, base.parts + [".."], false);
    ResolveAppendDotDot(cwd, base, up);
    ResolveAppendNames(cwd, up, [n], AbsolutePath(base, "../" + n));
    var res := b[..|b| - 1] + [n];
    assert res[|b| - 1] == n;
  }
}
