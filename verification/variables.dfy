/**
 * Variable resolution for one declaration (src/common.rs): the last
 * `&name` reference inside the declaration is looked up among the
 * `Variables` entries and substituted textually.
 */
module Variables {
  import opened Wrappers
  import opened Text
  import opened Syntax
  import opened Metadata

  /** `m` is a `Variables` entry named `name`. */
  predicate Declares(m: MetaData, name: string) {
    m.Variables? && m.name == name
  }

  /** The first `Variables` entry named `name` sits at index `i`. */
  predicate FirstDeclAt(md: seq<MetaData>, name: string, i: int) {
    0 <= i < |md| && Declares(md[i], name)
    && forall j :: 0 <= j < i ==> !Declares(md[j], name)
  }

  /** The value of the first `Variables` entry named `name`, in list order. */
  function FirstValue(md: seq<MetaData>, name: string): (r: Option<string>)
    ensures r.None? <==> forall i :: 0 <= i < |md| ==> !Declares(md[i], name)
    ensures r.Some? ==> exists i :: FirstDeclAt(md, name, i) && md[i].value == r.value
  {
    if md == [] then None
    else if Declares(md[0], name) then
      assert FirstDeclAt(md, name, 0);
      Some(md[0].value)
    else
      var r := FirstValue(md[1..], name);
      assert forall i :: 0 < i < |md| ==> md[i] == md[1..][i - 1];
      if r.Some? then
        var i :| FirstDeclAt(md[1..], name, i) && md[1..][i].value == r.value;
        assert FirstDeclAt(md, name, i + 1);
        r
      else r
  }

  /** The values of every `Variables` entry named `name`, in list order. */
  function AllValues(md: seq<MetaData>, name: string): (r: seq<string>)
    ensures r == [] <==> FirstValue(md, name).None?
    ensures r != [] ==> r[0] == FirstValue(md, name).value
    ensures forall v :: v in r <==> exists i :: 0 <= i < |md| && Declares(md[i], name) && md[i].value == v
  {
    if md == [] then []
    else
      var rest := AllValues(md[1..], name);
      assert forall i :: 0 < i < |md| ==> md[i] == md[1..][i - 1];
      if Declares(md[0], name) then [md[0].value] + rest else rest
  }

  /** The metadata with every non-`Variables` entry removed. */
  function VariablesOnly(md: seq<MetaData>): (r: seq<MetaData>)
    ensures forall i :: 0 <= i < |r| ==> r[i].Variables? && r[i] in md
  {
    if md == [] then []
    else (if md[0].Variables? then [md[0]] else []) + VariablesOnly(md[1..])
  }

  /** The text of the declaration's last `variable_reference` child ("" if none). */
  function Reference(decl: Node): string {
    LastText(decl.children, VariableReference)
  }

  /** A reference without its leading `&` characters. */
  function RefName(reference: string): string {
    TrimStartMatches(reference, '&')
  }

  function MissingVariable(decl: Node, name: string, filePath: string): RcssError {
    VariableError(filePath, decl.line, decl.column, name, "Could not find variable: " + name)
  }

  /**
   * `process_variable_declaration`: the trimmed declaration text, with every
   * occurrence of its last reference replaced by the first matching
   * variable's value; an error naming the variable when none matches.
   */
  function ResolveDeclaration(decl: Node, md: seq<MetaData>, filePath: string): (r: Outcome<string>)
    ensures Reference(decl) == [] ==> r == Ok(Trim(decl.text))
    ensures r.Err? <==> Reference(decl) != [] && (forall i :: 0 <= i < |md| ==> !Declares(md[i], RefName(Reference(decl))))
    ensures r.Err? ==> r.error == MissingVariable(decl, RefName(Reference(decl)), filePath)
    ensures Reference(decl) != [] && r.Ok? ==>
            exists i :: FirstDeclAt(md, RefName(Reference(decl)), i)
                        && r.value == ReplaceAll(Trim(decl.text), Reference(decl), md[i].value)
  {
    var reference := Reference(decl);
    var text := Trim(decl.text);
    if reference == [] then Ok(text)
    else match FirstValue(md, RefName(reference))
      case Some(v) => Ok(ReplaceAll(text, reference, v))
      case None => Err(MissingVariable(decl, RefName(reference), filePath))
  }

  /** Only `Variables` entries take part in the lookup. */
  lemma {:induction false} FirstValueIgnoresOthers(md: seq<MetaData>, name: string)
    ensures FirstValue(VariablesOnly(md), name) == FirstValue(md, name)
  {
    if md != [] {
      FirstValueIgnoresOthers(md[1..], name);
      var rest := VariablesOnly(md[1..]);
      if md[0].Variables? {
        assert VariablesOnly(md) == [md[0]] + rest;
        assert ([md[0]] + rest)[1..] == rest;
      } else {
        assert VariablesOnly(md) == rest;
      }
    }
  }

  /** Function and keyframe entries never influence how a declaration resolves. */
  lemma ResolveIgnoresOthers(decl: Node, md: seq<MetaData>, filePath: string)
    ensures ResolveDeclaration(decl, VariablesOnly(md), filePath) == ResolveDeclaration(decl, md, filePath)
  {
    FirstValueIgnoresOthers(md, RefName(Reference(decl)));
  }

  /**
   * The lines one declaration contributes to a function body or a keyframe:
   * the trimmed text when it has no reference, otherwise one replaced copy
   * per matching `Variables` entry (the lookup loop has no early exit), and
   * an error when nothing matches.
   */
  function DeclLines(decl: Node, md: seq<MetaData>, filePath: string): (r: Outcome<seq<string>>)
    ensures Reference(decl) == [] ==> r == Ok([Trim(decl.text)])
    ensures r.Err? <==> Reference(decl) != [] && AllValues(md, RefName(Reference(decl))) == []
    ensures r.Err? ==> r.error == MissingVariable(decl, RefName(Reference(decl)), filePath)
    ensures r.Ok? ==> |r.value| == (if Reference(decl) == [] then 1 else |AllValues(md, RefName(Reference(decl)))|)
    ensures r.Ok? && Reference(decl) != [] ==>
            forall k :: 0 <= k < |r.value| ==>
              r.value[k] == ReplaceAll(Trim(decl.text), Reference(decl), AllValues(md, RefName(Reference(decl)))[k])
  {
    var reference := Reference(decl);
    var text := Trim(decl.text);
    if reference == [] then Ok([text])
    else
      var vs := AllValues(md, RefName(reference));
      if vs == [] then Err(MissingVariable(decl, RefName(reference), filePath))
      else Ok(ReplaceEach(text, reference, vs))
  }

  /** One copy of `text` per value, with `reference` replaced by that value. */
  function ReplaceEach(text: string, reference: string, vs: seq<string>): (r: seq<string>)
    ensures |r| == |vs|
    ensures forall k :: 0 <= k < |vs| ==> r[k] == ReplaceAll(text, reference, vs[k])
  {
    if vs == [] then [] else [ReplaceAll(text, reference, vs[0])] + ReplaceEach(text, reference, vs[1..])
  }

  /**
   * The per-line expansion agrees with `process_variable_declaration`: both
   * fail with the same error, and on success the first line is its result.
   */
  lemma DeclLinesAgree(decl: Node, md: seq<MetaData>, filePath: string)
    ensures DeclLines(decl, md, filePath).Ok? <==> ResolveDeclaration(decl, md, filePath).Ok?
    ensures DeclLines(decl, md, filePath).Err? ==>
            DeclLines(decl, md, filePath).error == ResolveDeclaration(decl, md, filePath).error
    ensures DeclLines(decl, md, filePath).Ok? ==>
            DeclLines(decl, md, filePath).value[0] == ResolveDeclaration(decl, md, filePath).value
  {
  }

  /**
   * The substitution is textual: with `&a` defined as "1", the declaration
   * `x:&a2 &a` (whose last reference is `&a`) also rewrites the longer name
   * `&a2`.
   */
  lemma PrefixOfLongerNameReplaced()
    ensures ResolveDeclaration(
              Node(Declaration, "x:&a2 &a", [Node(VariableReference, "&a2", [], 1, 2),
                                               Node(VariableReference, "&a", [], 1, 6)], 1, 0),
              [Variables("a", "1")], "f.rcss")
            == Ok("x:12 1")
  {
    var decl := Node(Declaration, "x:&a2 &a", [Node(VariableReference, "&a2", [], 1, 2),
                                               Node(VariableReference, "&a", [], 1, 6)], 1, 0);
    assert Reference(decl) == "&a";
    ExampleRefName();
    ExampleTrim();
    ExampleReplace();
    assert FirstValue([Variables("a", "1")], "a") == Some("1");
  }

  lemma ExampleRefName()
    ensures RefName("&a") == "a"
  {
    assert "&a"[0] == '&' && "&a"[1..] == "a";
    assert "a"[0] != '&';
  }

  lemma ExampleTrim()
    ensures Trim("x:&a2 &a") == "x:&a2 &a"
  {
    TrimOfTrimmed("x:&a2 &a");
  }

  lemma ExampleReplace()
    ensures ReplaceAll("x:&a2 &a", "&a", "1") == "x:12 1"
  {
    assert "x:" + "&a" + ("2 " + "&a") == "x:&a2 &a";
    ReplaceTwice("x:", "2 ", "&a", "1");
    assert "x:" + "1" + ("2 " + "1") == "x:12 1";
  }

  /** Two occurrences, each after text free of the pattern's first character, are both replaced. */
  lemma ReplaceTwice(a: string, b: string, pat: string, rep: string)
    requires |pat| > 0 && pat[0] !in a && pat[0] !in b
    ensures ReplaceAll(a + pat + (b + pat), pat, rep) == a + rep + (b + rep)
  {
    var e: string := [];
    assert b + pat == b + pat + e;
    ReplaceAfterPrefix(b, pat, e, rep);
    assert ReplaceAll(e, pat, rep) == e;
    ReplaceAfterPrefix(a, pat, b + pat, rep);
  }
}
