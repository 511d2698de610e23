/**
 * Import paths in the text emitter (src/rcss/process_x/import.rs): each
 * `import_path` names a file under the input directory, its `::`-separated
 * pieces becoming directories, with the `.rcss` extension put in place.
 * The operation only prints the paths; here it returns them.
 */
module ImportPaths {
  import opened Wrappers
  import opened Text
  import opened Syntax
  import ImportResolver

  /** The pieces other than `*`, in order. */
  function DropStars(pieces: seq<string>): (r: seq<string>)
    ensures |r| <= |pieces|
    ensures forall i :: 0 <= i < |r| ==> r[i] != "*" && r[i] in pieces
  {
    if pieces == [] then []
    else if pieces[0] == "*" then DropStars(pieces[1..])
    else [pieces[0]] + DropStars(pieces[1..])
  }

  /** The pieces of an import path: trimmed, split at `::`, the `*` pieces dropped. */
  function Segments(text: string): seq<string> {
    DropStars(SplitOn(Trim(text), "::"))
  }

  /**
   * `Path::join`: an absolute `rel` replaces `dir`; otherwise `rel` is
   * appended, after a `/` unless `dir` is empty or already ends in one.
   */
  function JoinPath(dir: string, rel: string): (r: string)
    ensures StartsWith(rel, "/") ==> r == rel
    ensures !StartsWith(rel, "/") ==> StartsWith(r, dir) && EndsWith(r, rel) && |r| <= |dir| + 1 + |rel|
  {
    if rel != [] && rel[0] == '/' then rel
    else if dir == [] || dir[|dir| - 1] == '/' then dir + rel
    else dir + "/" + rel
  }

  /** Where the last component of `p` starts: just after its last `/`, or at 0. */
  function NameStart(p: string): (k: nat)
    ensures k <= |p| && '/' !in p[k..] && (k == 0 || p[k - 1] == '/')
  {
    if p == [] then 0
    else if p[|p| - 1] == '/' then |p|
    else
      var k := NameStart(p[..|p| - 1]);
      assert p[k..] == p[..|p| - 1][k..] + [p[|p| - 1]];
      k
  }

  /** Where the last `.` of `name` is, if it has one. */
  function LastDot(name: string): (r: Option<nat>)
    ensures r.None? <==> '.' !in name
    ensures r.Some? ==> r.value < |name| && name[r.value] == '.' && '.' !in name[r.value + 1..]
  {
    if name == [] then None
    else if name[|name| - 1] == '.' then Some(|name| - 1)
    else
      var r := LastDot(name[..|name| - 1]);
      if r.Some? then
        assert name[r.value + 1..] == name[..|name| - 1][r.value + 1..] + [name[|name| - 1]];
        r
      else
        assert name == name[..|name| - 1] + [name[|name| - 1]];
        r
  }

  /** `Path::file_stem`: the name before its last dot, unless that dot is the first character. */
  function Stem(name: string): (r: string)
    ensures StartsWith(name, r)
    ensures name != [] ==> r != []
  {
    match LastDot(name)
    case Some(d) => if d > 0 then name[..d] else name
    case None => name
  }

  /**
   * `Path::set_extension("rcss")`: trailing `/`s are ignored, and the last
   * component becomes its stem followed by `.rcss`. A path without a last
   * component, or whose last component is `..`, is left as it is.
   */
  function SetRcssExtension(p: string): string {
    var base := TrimEndChars(p, {'/'});
    var k := NameStart(base);
    var name := base[k..];
    if name == [] || name == ".." then p else base[..k] + Stem(name) + ".rcss"
  }

  /** The file one `import_path` names: joined under `dir`, given the `.rcss` extension if it lacks it. */
  function ImportPathTarget(dir: string, text: string): string {
    var path := JoinPath(dir, Join(Segments(text), "/"));
    if EndsWith(path, ".rcss") then path else SetRcssExtension(path)
  }

  /** `process_import`: one path per `import_path` child, in order; other children are skipped. */
  function ProcessImport(dir: string, stmt: Node): (r: seq<string>)
    ensures |r| == |ChildrenTagged(stmt.children, ImportPath)|
  {
    Targets(dir, ChildrenTagged(stmt.children, ImportPath))
  }

  function Targets(dir: string, paths: seq<Node>): (r: seq<string>)
    ensures |r| == |paths| && forall i {:trigger r[i]} :: 0 <= i < |paths| ==> r[i] == ImportPathTarget(dir, paths[i].text)
  {
    if paths == [] then [] else [ImportPathTarget(dir, paths[0].text)] + Targets(dir, paths[1..])
  }

  // ---------------------------------------------------------------- properties

  /** The last component of `p`, trailing `/`s ignored. */
  function LastName(p: string): string {
    var base := TrimEndChars(p, {'/'});
    base[NameStart(base)..]
  }

  /**
   * An import ends in `.rcss` exactly when the joined path already does or
   * its last component is neither empty nor `..`.
   */
  lemma TargetExtension(dir: string, text: string)
    ensures var path := JoinPath(dir, Join(Segments(text), "/"));
            var t := ImportPathTarget(dir, text);
            (LastName(path) != [] && LastName(path) != "..") || EndsWith(path, ".rcss") <==> EndsWith(t, ".rcss")
  {
    var path := JoinPath(dir, Join(Segments(text), "/"));
    var t := ImportPathTarget(dir, text);
    if !EndsWith(path, ".rcss") {
      var name := LastName(path);
      if name != [] && name != ".." {
        RcssSuffix(TrimEndChars(path, {'/'})[..NameStart(TrimEndChars(path, {'/'}))] + Stem(name));
      }
    }
  }

  lemma RcssSuffix(x: string)
    ensures EndsWith(x + ".rcss", ".rcss")
  {
    assert (x + ".rcss")[|x|..] == ".rcss";
  }

  /** The last component `..` (a parent directory) is never given an extension. */
  lemma ParentKeepsName(dir: string)
    requires dir != [] && dir[|dir| - 1] != '/'
    ensures ImportPathTarget(dir, "..") == dir + "/.."
  {
    SegmentsOfParent();
    assert JoinPath(dir, "..") == dir + "/..";
    ParentPath(dir);
  }

  lemma SegmentsOfParent()
    ensures Segments("..") == [".."]
  {
    TrimOfTrimmed("..");
    assert ".."[..2] != "::";
    assert SplitOn(".", "::") == ["."];
    assert ".."[1..] == ".";
    assert ['.'] + "." == "..";
    assert SplitOn(".", "::")[1..] == [];
    assert SplitOn("..", "::") == [".."];
  }

  lemma ParentPath(dir: string)
    requires dir != []
    ensures !EndsWith(dir + "/..", ".rcss") && SetRcssExtension(dir + "/..") == dir + "/.."
  {
    var path := dir + "/..";
    assert path[|path| - 1] == '.';
    assert TrimEndChars(path, {'/'}) == path;
    NameStartAfter(dir + "/", "..");
    assert path == (dir + "/") + "..";
    assert path[|dir| + 1..] == "..";
  }

  /** A name already ending in `.rcss` keeps it: giving the extension twice is giving it once. */
  lemma SetRcssIdempotent(p: string)
    ensures SetRcssExtension(SetRcssExtension(p)) == SetRcssExtension(p)
  {
    var base := TrimEndChars(p, {'/'});
    var k := NameStart(base);
    var name := base[k..];
    if name != [] && name != ".." {
      var stem := Stem(name);
      assert '/' !in stem by {
        assert stem == name[..|stem|];
      }
      StemmedKept(base[..k], stem);
    }
  }

  /** `dir/stem.rcss` is left as it is when `stem` is a non-empty name. */
  lemma StemmedKept(x: string, stem: string)
    requires x == [] || x[|x| - 1] == '/'
    requires stem != [] && '/' !in stem
    ensures SetRcssExtension(x + stem + ".rcss") == x + stem + ".rcss"
  {
    var y := stem + ".rcss";
    var q := x + y;
    RcssName(stem);
    LastNameOf(x, y);
    StemOfRcss(stem);
    RcssOfSplit(q, x, y);
    AppendAssoc(x, stem, ".rcss");
  }

  lemma AppendAssoc(x: string, y: string, z: string)
    ensures x + y + z == x + (y + z)
  {
  }

  lemma RcssName(stem: string)
    requires '/' !in stem
    ensures var y := stem + ".rcss"; y != [] && '/' !in y && y[|y| - 1] != '/' && y != ".."
  {
    var y := stem + ".rcss";
    assert y[|stem|..] == ".rcss";
  }

  /** The extension given to `x + y` when `y` is its last component. */
  lemma RcssOfSplit(q: string, x: string, y: string)
    requires TrimEndChars(q, {'/'}) == q && NameStart(q) == |x| && |x| <= |q| && q[|x|..] == y && q[..|x|] == x
    requires y != [] && y != ".."
    ensures SetRcssExtension(q) == x + Stem(y) + ".rcss"
  {
  }

  /** `x + y` splits as `x` and the name `y` when `x` is empty or ends in `/` and `y` is a non-empty name. */
  lemma LastNameOf(x: string, y: string)
    requires x == [] || x[|x| - 1] == '/'
    requires y != [] && '/' !in y && y[|y| - 1] != '/'
    ensures var q := x + y; TrimEndChars(q, {'/'}) == q && NameStart(q) == |x| && q[|x|..] == y && q[..|x|] == x
  {
    var q := x + y;
    assert q[|q| - 1] == y[|y| - 1];
    NameStartAfter(x, y);
  }

  /** The last component of `x + y` starts after `x` when `x` ends in `/` or is empty and `y` has no `/`. */
  lemma {:induction false} NameStartAfter(x: string, y: string)
    requires x == [] || x[|x| - 1] == '/'
    requires '/' !in y
    ensures NameStart(x + y) == |x|
    decreases |y|
  {
    if y == [] {
      assert x + y == x;
    } else {
      var p := x + y;
      assert p[|p| - 1] == y[|y| - 1];
      assert p[..|p| - 1] == x + y[..|y| - 1];
      NameStartAfter(x, y[..|y| - 1]);
    }
  }

  /** The stem of `stem.rcss` is `stem`, when `stem` is not empty. */
  lemma StemOfRcss(stem: string)
    requires stem != []
    ensures Stem(stem + ".rcss") == stem
  {
    var n := stem + ".rcss";
    var d := |stem|;
    assert n[d] == '.';
    assert n[d + 1..] == "rcss";
    var r := LastDot(n);
    assert r.Some? && r.value == d;
    assert n[..d] == stem;
  }

  // ---------------------------------------------------------------- round trip

  /** Splitting joined pieces at `::` gives them back, then only the `*` pieces go. */
  lemma SegmentsOfJoin(pieces: seq<string>)
    requires |pieces| >= 1 && Trimmed(Join(pieces, "::"))
    requires forall i :: 0 <= i < |pieces| ==> ':' !in pieces[i]
    ensures Segments(Join(pieces, "::")) == DropStars(pieces)
  {
    TrimOfTrimmed(Join(pieces, "::"));
    SplitOnJoin(pieces, "::");
  }

  lemma {:induction false} DropStarsNone(pieces: seq<string>)
    requires forall i :: 0 <= i < |pieces| ==> pieces[i] != "*"
    ensures DropStars(pieces) == pieces
  {
    if pieces != [] {
      DropStarsNone(pieces[1..]);
    }
  }

  lemma {:induction false} DropStarsAppend(a: seq<string>, b: seq<string>)
    ensures DropStars(a + b) == DropStars(a) + DropStars(b)
  {
    if a == [] {
      assert a + b == b;
    } else {
      assert (a + b)[1..] == a[1..] + b;
      DropStarsAppend(a[1..], b);
    }
  }

  /** Identifiers usable as file names: non-empty, without `:`, `/` or `.`, and not `*`. */
  predicate PlainIds(ids: seq<string>) {
    forall i :: 0 <= i < |ids| ==> ids[i] != [] && ':' !in ids[i] && '/' !in ids[i] && '.' !in ids[i] && ids[i] != "*"
  }

  lemma {:induction false} JoinSnoc(ids: seq<string>, sep: string)
    requires |ids| >= 2
    ensures Join(ids, sep) == Join(ids[..|ids| - 1], sep) + sep + ids[|ids| - 1]
    decreases |ids|
  {
    if |ids| > 2 {
      JoinSnoc(ids[1..], sep);
      assert ids[1..][..|ids| - 2] == ids[..|ids| - 1][1..];
      assert ids[..|ids| - 1][0] == ids[0];
    } else {
      assert ids[..1] == [ids[0]];
      assert ids[1..] == [ids[1]];
    }
  }

  /** The directories in front of the last identifier, each followed by `/`. */
  function DirPrefix(ids: seq<string>): (r: string)
    requires |ids| >= 1
    ensures r == [] || r[|r| - 1] == '/'
  {
    if |ids| == 1 then [] else Join(ids[..|ids| - 1], "/") + "/"
  }

  /** A joined path is its directories followed by its last identifier. */
  lemma LastComponent(ids: seq<string>)
    requires |ids| >= 1
    ensures Join(ids, "/") == DirPrefix(ids) + ids[|ids| - 1]
  {
    if |ids| > 1 {
      JoinSnoc(ids, "/");
    } else {
      assert Join(ids, "/") == ids[0];
    }
  }

  /**
   * Read from a path of plain identifiers written `a::b::c` under a
   * directory that does not end in `/`, the import names `dir/a/b/c.rcss`.
   */
  lemma ImportOfIdentifiers(dir: string, ids: seq<string>)
    requires |ids| >= 1 && PlainIds(ids) && Trimmed(Join(ids, "::"))
    requires dir != [] && dir[|dir| - 1] != '/'
    ensures ImportPathTarget(dir, Join(ids, "::")) == dir + "/" + Join(ids, "/") + ".rcss"
  {
    JoinedUnderDir(dir, ids);
    var x := dir + "/" + DirPrefix(ids);
    var last := ids[|ids| - 1];
    DirAndLast(dir, ids);
    assert x != [] && x[|x| - 1] == '/';
    PlainPathTail(x, last);
  }

  /** The identifiers of `a::b::c`, joined under `dir`, give `dir/a/b/c`. */
  lemma JoinedUnderDir(dir: string, ids: seq<string>)
    requires |ids| >= 1 && PlainIds(ids) && Trimmed(Join(ids, "::"))
    requires dir != [] && dir[|dir| - 1] != '/'
    ensures JoinPath(dir, Join(Segments(Join(ids, "::")), "/")) == dir + "/" + Join(ids, "/")
  {
    SegmentsOfJoin(ids);
    DropStarsNone(ids);
    var rel := Join(ids, "/");
    JoinHead(ids, "/");
    assert rel[0] != '/';
  }

  /** `dir/a/b/c` is its directory part followed by the last identifier. */
  lemma DirAndLast(dir: string, ids: seq<string>)
    requires |ids| >= 1
    ensures dir + "/" + Join(ids, "/") == (dir + "/" + DirPrefix(ids)) + ids[|ids| - 1]
  {
    LastComponent(ids);
  }

  lemma JoinHead(ids: seq<string>, sep: string)
    requires |ids| >= 1 && PlainIds(ids)
    ensures Join(ids, sep) != [] && Join(ids, sep)[0] == ids[0][0]
  {
    if |ids| > 1 {
      assert Join(ids, sep) == ids[0] + (sep + Join(ids[1..], sep));
    }
  }

  /** A directory path ending in `/` followed by a dot-free name is given `.rcss` after that name. */
  lemma PlainPathTail(x: string, last: string)
    requires x != [] && x[|x| - 1] == '/'
    requires last != [] && '/' !in last && '.' !in last
    ensures (if EndsWith(x + last, ".rcss") then x + last else SetRcssExtension(x + last)) == x + last + ".rcss"
  {
    var path := x + last;
    if |path| >= 5 {
      var j := |path| - 5;
      if j >= |x| {
        assert path[j..][0] == last[j - |x|];
        assert last[j - |x|] in last;
      } else {
        assert path[j..][|x| - 1 - j] == path[|x| - 1] == '/';
        assert ".rcss"[|x| - 1 - j] != '/';
      }
    }
    assert !EndsWith(path, ".rcss");
    assert path[|path| - 1] == last[|last| - 1];
    assert last[|last| - 1] in last;
    assert TrimEndChars(path, {'/'}) == path;
    NameStartAfter(x, last);
    assert path[|x|..] == last;
    assert Stem(last) == last;
    assert last != "..";
    assert path[..|x|] == x;
  }

  /** Both compilers resolve an import of plain identifiers to the same file. */
  lemma AgreesWithResolver(dir: string, stmt: Node)
    requires |ImportResolver.Identifiers(stmt)| >= 1 && PlainIds(ImportResolver.Identifiers(stmt))
    requires Trimmed(Join(ImportResolver.Identifiers(stmt), "::"))
    requires dir != [] && dir[|dir| - 1] != '/'
    ensures ImportPathTarget(dir, Join(ImportResolver.Identifiers(stmt), "::")) == ImportResolver.ImportTarget(dir, stmt)
  {
    ImportOfIdentifiers(dir, ImportResolver.Identifiers(stmt));
  }

  /** A trailing `::*` piece makes no difference to the file named. */
  lemma WildcardIgnored(dir: string, ids: seq<string>)
    requires |ids| >= 1 && PlainIds(ids) && Trimmed(Join(ids, "::"))
    ensures ImportPathTarget(dir, Join(ids + ["*"], "::")) == ImportPathTarget(dir, Join(ids, "::"))
  {
    WildcardSegments(ids);
    SegmentsOfJoin(ids);
    DropStarsNone(ids);
  }

  lemma WildcardSegments(ids: seq<string>)
    requires |ids| >= 1 && PlainIds(ids) && Trimmed(Join(ids, "::"))
    ensures Segments(Join(ids + ["*"], "::")) == ids
  {
    var ws := ids + ["*"];
    WildcardJoin(ids);
    forall i | 0 <= i < |ws| ensures ':' !in ws[i] {
      if i < |ids| { assert ws[i] == ids[i]; }
    }
    SegmentsOfJoin(ws);
    DropStarsAppend(ids, ["*"]);
    DropStarsNone(ids);
    assert DropStars(["*"]) == [];
  }

  lemma WildcardJoin(ids: seq<string>)
    requires |ids| >= 1 && PlainIds(ids) && Trimmed(Join(ids, "::"))
    ensures Trimmed(Join(ids + ["*"], "::"))
  {
    var ws := ids + ["*"];
    JoinSnoc(ws, "::");
    assert ws[..|ws| - 1] == ids;
    var j := Join(ws, "::");
    assert j == Join(ids, "::") + "::" + "*";
    JoinHead(ids, "::");
    assert j[0] == Join(ids, "::")[0];
    assert j[|j| - 1] == '*';
  }
}
