/**
 * Import statements (src/process_x/imports.rs): the identifiers of an
 * import name a file relative to the importing directory, and the metadata
 * already compiled for that file is appended to the current metadata.
 */
module ImportResolver {
  import opened Wrappers
  import opened Text
  import opened Syntax
  import opened Metadata
  import opened Variables

  /** Metadata already compiled, by file path. */
  type ProjectMetaData = map<string, seq<MetaData>>

  /** The raw text of every `identifier` child, in source order. */
  function Identifiers(stmt: Node): (r: seq<string>)
    ensures |r| == |ChildrenTagged(stmt.children, Identifier)|
  {
    TextsOf(ChildrenTagged(stmt.children, Identifier))
  }

  function TextsOf(ns: seq<Node>): (r: seq<string>)
    ensures |r| == |ns| && forall i {:trigger r[i]} :: 0 <= i < |ns| ==> r[i] == ns[i].text
  {
    if ns == [] then [] else [ns[0].text] + TextsOf(ns[1..])
  }

  /** The file an import refers to: the identifiers joined by `/` under the importing directory, with `.rcss`. */
  function ImportTarget(relativePath: string, stmt: Node): string {
    relativePath + "/" + Join(Identifiers(stmt), "/") + ".rcss"
  }

  /**
   * `process_import_statement`: the metadata with the target's metadata
   * appended, or "File not found" at the statement's position. On success
   * the caller's list and the returned list are the same; on failure the
   * caller's list is untouched.
   */
  function ProcessImportStatement(md: seq<MetaData>, project: ProjectMetaData, relativePath: string,
                                  filePath: string, stmt: Node): (r: Outcome<seq<MetaData>>)
    ensures r.Ok? <==> ImportTarget(relativePath, stmt) in project
    ensures r.Ok? ==> |r.value| >= |md| && r.value[..|md|] == md && r.value[|md|..] == project[ImportTarget(relativePath, stmt)]
    ensures r.Err? ==> r.error == ImportError(filePath, stmt.line, stmt.column, "File not found")
  {
    var path := ImportTarget(relativePath, stmt);
    if path in project then
      var r := md + project[path];
      assert r[..|md|] == md && r[|md|..] == project[path];
      Ok(r)
    else Err(ImportError(filePath, stmt.line, stmt.column, "File not found"))
  }

  // ---------------------------------------------------------------- properties

  /** The target path ends in `.rcss` and sits under the importing directory. */
  lemma TargetShape(relativePath: string, stmt: Node)
    ensures StartsWith(ImportTarget(relativePath, stmt), relativePath + "/")
    ensures EndsWith(ImportTarget(relativePath, stmt), ".rcss")
  {
    var t := ImportTarget(relativePath, stmt);
    var mid := Join(Identifiers(stmt), "/");
    assert t == (relativePath + "/") + (mid + ".rcss");
    assert t[..|relativePath + "/"|] == relativePath + "/";
    assert t == (relativePath + "/" + mid) + ".rcss";
    assert t[|t| - 5..] == ".rcss";
  }

  /**
   * The identifiers can be read back from the path: between the directory
   * and the extension, the path splits at `/` into exactly the identifiers,
   * as long as none of them contains a `/`.
   */
  lemma TargetSegments(relativePath: string, stmt: Node)
    requires |Identifiers(stmt)| >= 1
    requires forall i :: 0 <= i < |Identifiers(stmt)| ==> '/' !in Identifiers(stmt)[i]
    ensures var t := ImportTarget(relativePath, stmt);
            SplitOn(t[|relativePath| + 1..|t| - 5], "/") == Identifiers(stmt)
  {
    var ids := Identifiers(stmt);
    var mid := Join(ids, "/");
    var t := ImportTarget(relativePath, stmt);
    assert t == (relativePath + "/") + mid + ".rcss";
    assert t[|relativePath| + 1..|t| - 5] == mid;
    SplitOnJoin(ids, "/");
  }

  /** Importing the same file twice appends its metadata twice. */
  lemma ImportTwiceDuplicates(md: seq<MetaData>, project: ProjectMetaData, relativePath: string,
                              filePath: string, stmt: Node)
    requires ImportTarget(relativePath, stmt) in project
    ensures var once := ProcessImportStatement(md, project, relativePath, filePath, stmt).value;
            var twice := ProcessImportStatement(once, project, relativePath, filePath, stmt).value;
            twice == md + project[ImportTarget(relativePath, stmt)] + project[ImportTarget(relativePath, stmt)]
  {
    var p := project[ImportTarget(relativePath, stmt)];
    var once := ProcessImportStatement(md, project, relativePath, filePath, stmt).value;
    assert once == once[..|md|] + once[|md|..];
    var twice := ProcessImportStatement(once, project, relativePath, filePath, stmt).value;
    assert twice == twice[..|once|] + twice[|once|..];
  }

  /** A variable lookup in a list extended at the end sees the front first. */
  lemma {:induction false} FirstValueAppend(a: seq<MetaData>, b: seq<MetaData>, name: string)
    ensures FirstValue(a + b, name) == if FirstValue(a, name).Some? then FirstValue(a, name) else FirstValue(b, name)
  {
    if a == [] {
      assert a + b == b;
    } else {
      assert (a + b)[0] == a[0];
      assert (a + b)[1..] == a[1..] + b;
      FirstValueAppend(a[1..], b, name);
    }
  }

  /**
   * Variables declared before an import shadow imported variables of the
   * same name; names the file does not declare resolve to the imported value.
   */
  lemma EarlierDeclarationsWin(md: seq<MetaData>, project: ProjectMetaData, relativePath: string,
                               filePath: string, stmt: Node, name: string)
    requires ImportTarget(relativePath, stmt) in project
    ensures var r := ProcessImportStatement(md, project, relativePath, filePath, stmt).value;
            FirstValue(r, name) == if FirstValue(md, name).Some? then FirstValue(md, name)
                                   else FirstValue(project[ImportTarget(relativePath, stmt)], name)
  {
    var r := ProcessImportStatement(md, project, relativePath, filePath, stmt).value;
    assert r == r[..|md|] + r[|md|..];
    FirstValueAppend(md, project[ImportTarget(relativePath, stmt)], name);
  }
}
