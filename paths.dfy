/** The part of Rust's `std::path::Path` that the extension check relies on,
    for Unix paths: the file name (`Path::file_name`) and the extension
    (`Path::extension`).

    A path is cut at every `/`. Empty pieces (repeated or trailing slashes)
    and `.` pieces are not components, except that a leading `.` is the
    current directory; either way none of them can be a file name. The file
    name is the last component, unless that component is `..`, which has no
    file name. The extension is the text after the last `.` of the file name,
    provided that this dot is not the file name's first character. */
module Paths {
  import opened Prelude

  /** The cutting of `[c] + s`, given the cutting `segs` of `s`: a slash
      opens a new, empty piece in front; any other character joins the
      first piece. */
  function Prepend(c: char, segs: seq<string>): (r: seq<string>)
    requires |segs| >= 1
    ensures |r| >= 1
  {
    if c == '/' then [[]] + segs else [[c] + segs[0]] + segs[1..]
  }

  lemma PrependAppend(c: char, x: seq<string>, y: seq<string>)
    requires |x| >= 1
    ensures Prepend(c, x + y) == Prepend(c, x) + y
  {
    if c != '/' {
      assert (x + y)[0] == x[0];
      assert (x + y)[1..] == x[1..] + y;
    }
  }

  /** The pieces between the slashes of `p`, empty ones included:
      "a//b/" gives ["a", "", "b", ""]. */
  function Segments(p: string): (r: seq<string>)
    ensures |r| >= 1
    ensures forall i :: 0 <= i < |r| ==> '/' !in r[i]
    decreases |p|
  {
    if p == [] then [[]]
    else
      var rest := Segments(p[1..]);
      var r := Prepend(p[0], rest);
      assert p[0] != '/' ==> r[0] == [p[0]] + rest[0] && r[1..] == rest[1..];
      r
  }

  /** Puts pieces back together with a `/` between neighbours. */
  function Join(segs: seq<string>): string
    requires |segs| >= 1
    decreases |segs|
  {
    if |segs| == 1 then segs[0] else segs[0] + "/" + Join(segs[1..])
  }

  /** Cutting a path and joining the pieces gives the path back. */
  lemma {:induction false} JoinSegments(p: string)
    ensures Join(Segments(p)) == p
    decreases |p|
  {
    if p != [] {
      var rest := Segments(p[1..]);
      JoinSegments(p[1..]);
      if p[0] == '/' {
        assert Segments(p) == [[]] + rest;
        assert Join(Segments(p)) == [] + "/" + Join(rest);
      } else if |rest| == 1 {
        assert Join(Segments(p)) == [p[0]] + rest[0];
      } else {
        assert Join(rest) == rest[0] + "/" + Join(rest[1..]);
        assert Segments(p)[1..] == rest[1..];
        assert Join(Segments(p)) == ([p[0]] + rest[0]) + "/" + Join(rest[1..]);
      }
    }
  }

  /** A piece without a slash is a single segment. */
  lemma {:induction false} SegmentsOfPiece(f: string)
    requires '/' !in f
    ensures Segments(f) == [f]
    decreases |f|
  {
    if f != [] {
      assert '/' !in f[1..] by {
        forall i | 0 <= i < |f[1..]| ensures f[1..][i] != '/' {
          assert f[1..][i] == f[i + 1];
        }
      }
      SegmentsOfPiece(f[1..]);
      assert [f[0]] + f[1..] == f;
    }
  }

  /** Cutting at a `/` that joins two paths adds up the two cuttings. */
  lemma {:induction false} SegmentsOfJoined(a: string, b: string)
    ensures Segments(a + "/" + b) == Segments(a) + Segments(b)
    decreases |a|
  {
    var p := a + "/" + b;
    if a == [] {
      assert p[0] == '/' && p[1..] == b;
    } else {
      assert p[0] == a[0] && p[1..] == a[1..] + "/" + b;
      SegmentsOfJoined(a[1..], b);
      PrependAppend(a[0], Segments(a[1..]), Segments(b));
    }
  }

  /** Joining slash-free pieces and cutting again gives the pieces back. */
  lemma {:induction false} SegmentsOfJoin(segs: seq<string>)
    requires |segs| >= 1
    requires forall i :: 0 <= i < |segs| ==> '/' !in segs[i]
    ensures Segments(Join(segs)) == segs
    decreases |segs|
  {
    SegmentsOfPiece(segs[0]);
    if |segs| > 1 {
      SegmentsOfJoin(segs[1..]);
      SegmentsOfJoined(segs[0], Join(segs[1..]));
      assert [segs[0]] + segs[1..] == segs;
    }
  }

  /** A segment that names something: neither empty nor `.`. */
  predicate IsNamed(s: string) {
    s != [] && s != "."
  }

  /** The segments that are components after a possible leading current
      directory, in order. `..` is kept: it is a component, the parent
      directory. */
  function Named(segs: seq<string>): (r: seq<string>)
    ensures forall s :: s in r ==> s in segs && IsNamed(s)
    decreases |segs|
  {
    if segs == [] then []
    else (if IsNamed(segs[0]) then [segs[0]] else []) + Named(segs[1..])
  }

  lemma {:induction false} NamedOfAppend(x: seq<string>, y: seq<string>)
    ensures Named(x + y) == Named(x) + Named(y)
    decreases |x|
  {
    if x == [] {
      assert x + y == y;
    } else {
      assert (x + y)[0] == x[0];
      assert (x + y)[1..] == x[1..] + y;
      NamedOfAppend(x[1..], y);
    }
  }

  /** The components of `p` that can carry a name. */
  function Components(p: string): (r: seq<string>)
    ensures forall s :: s in r ==> '/' !in s && IsNamed(s)
  {
    Named(Segments(p))
  }

  /** Rust's `Path::file_name`: the last component, unless there is none or
      it is `..`. */
  function FileName(p: string): (r: Option<string>)
    ensures r.Some? ==> r.value != [] && r.value != "." && r.value != ".." && '/' !in r.value
  {
    var cs := Components(p);
    if |cs| == 0 then None
    else if cs[|cs| - 1] == ".." then None
    else Some(cs[|cs| - 1])
  }

  /** The position of the last `c` in `s`, if there is one. */
  function LastIndexOf(s: string, c: char): (r: Option<nat>)
    ensures r.None? <==> c !in s
    ensures r.Some? ==> r.value < |s| && s[r.value] == c
    ensures r.Some? ==> forall j :: r.value < j < |s| ==> s[j] != c
    decreases |s|
  {
    if |s| == 0 then None
    else if s[|s| - 1] == c then Some(|s| - 1)
    else
      assert s == s[..|s| - 1] + [s[|s| - 1]];
      LastIndexOf(s[..|s| - 1], c)
  }

  /** The extension of a file name: the text after its last dot, unless the
      name has no dot or its last dot is its first character. (Rust's
      `rsplit_file_at_dot` also special-cases `..`, which `FileName` never
      returns.) */
  function ExtensionOfName(name: string): (r: Option<string>)
    ensures r.None? <==> name == [] || '.' !in name[1..]
    ensures r.Some? ==> var e := r.value;
      && '.' !in e
      && |name| >= |e| + 2
      && name == name[..|name| - |e| - 1] + "." + e
  {
    assert forall j :: 0 <= j < |name| - 1 ==> name[1..][j] == name[j + 1];
    match LastIndexOf(name, '.')
    case None => None
    case Some(i) =>
      if i == 0 then None
      else
        var e := name[i + 1..];
        assert name[1..][i - 1] == '.';
        assert |name[..i]| == i && name == name[..i] + "." + e;
        assert forall j :: 0 <= j < |e| ==> e[j] == name[i + 1 + j];
        Some(e)
  }

  /** Rust's `Path::extension`: the extension of the file name, if the path
      has one. */
  function Extension(p: string): (r: Option<string>)
    ensures FileName(p).None? ==> r.None?
    ensures r.Some? ==> '.' !in r.value && '/' !in r.value
  {
    match FileName(p)
    case None => None
    case Some(name) =>
      var r := ExtensionOfName(name);
      assert r.Some? ==> forall j :: 0 <= j < |r.value| ==> r.value[j] == name[|name| - |r.value| + j];
      r
  }

  /** Conversely, a non-empty stem, a dot and a dot-free text make a file
      name whose extension is that text. */
  lemma ExtensionOfStemAndSuffix(stem: string, e: string)
    requires stem != []
    requires '.' !in e
    ensures ExtensionOfName(stem + "." + e) == Some(e)
  {
    var name := stem + "." + e;
    assert name[|stem|] == '.';
    var i := LastIndexOf(name, '.').value;
    assert name[i + 1..] == e;
  }

  /** A file name whose only dot is its first character (".png") has no
      extension. */
  lemma HiddenNameHasNoExtension(name: string)
    requires |name| >= 1 && name[0] == '.'
    requires '.' !in name[1..]
    ensures ExtensionOfName(name) == None
  {
  }

  /** A slash-free name other than "", "." and ".." is its own file name. */
  lemma FileNameOfPiece(f: string)
    requires '/' !in f && f != [] && f != "." && f != ".."
    ensures FileName(f) == Some(f)
  {
    SegmentsOfPiece(f);
    assert Named([f][1..]) == [];
  }

  /** The directory in front of a file name does not change the file name. */
  lemma FileNameUnderDirectory(dir: string, f: string)
    requires FileName(f).Some?
    ensures FileName(dir + "/" + f) == FileName(f)
  {
    SegmentsOfJoined(dir, f);
    NamedOfAppend(Segments(dir), Segments(f));
  }

  /** Rust's `PathBuf::join` on Unix: an absolute `name` replaces `dir`;
      otherwise a `/` is put between them unless `dir` is empty or already
      ends in one. */
  function JoinPath(dir: string, name: string): (r: string)
    ensures FileName(name).Some? ==> FileName(r) == FileName(name)
    ensures |name| > 0 && name[0] == '/' ==> r == name
    ensures |r| >= |name| && r[|r| - |name|..] == name
  {
    if |name| > 0 && name[0] == '/' then name
    else if dir == [] then name
    else if dir[|dir| - 1] == '/' then
      var parent := dir[..|dir| - 1];
      assert dir + name == parent + "/" + name;
      if FileName(name).Some? then FileNameUnderDirectory(parent, name); dir + name
      else dir + name
    else
      if FileName(name).Some? then FileNameUnderDirectory(dir, name); dir + "/" + name
      else dir + "/" + name
  }

  /** A trailing slash does not change the file name ("img/a.png/" names "a.png"). */
  lemma TrailingSlashKeepsFileName(p: string)
    ensures FileName(p + "/") == FileName(p)
  {
    assert p + "/" == p + "/" + [];
    SegmentsOfJoined(p, []);
    NamedOfAppend(Segments(p), [[]]);
    assert Named([[]]) == [];
    assert Components(p + "/") == Components(p);
  }

  /** A path that ends in the parent directory has no file name. */
  lemma ParentDirectoryHasNoFileName(dir: string)
    ensures FileName(dir + "/..") == None
  {
    assert dir + "/.." == dir + "/" + "..";
    SegmentsOfJoined(dir, "..");
    SegmentsOfPiece("..");
    NamedOfAppend(Segments(dir), [".."]);
    assert Named([".."][1..]) == [];
  }
}
