/**
 * Function definitions (src/process_x/functions.rs): the declarations of
 * every `function_block` of a definition are resolved against the metadata
 * and recorded, in order, as the body of a new `Function` entry.
 */
module FunctionDefs {
  import opened Wrappers
  import opened Text
  import opened Syntax
  import opened Metadata
  import opened Variables
  import SelectorEngine

  /** The first error of two outcomes, or both line lists joined. */
  function Then(a: Outcome<seq<string>>, b: Outcome<seq<string>>): Outcome<seq<string>> {
    if a.Err? then a else if b.Err? then b else Ok(a.value + b.value)
  }

  /** The lines of a run of declarations, left to right; the first unresolved reference stops it. */
  function BodyLines(md: seq<MetaData>, decls: seq<Node>, filePath: string): Outcome<seq<string>> {
    if decls == [] then Ok([])
    else Then(DeclLines(decls[0], md, filePath), BodyLines(md, decls[1..], filePath))
  }

  /**
   * The body collected from a definition's children: each `function_block`
   * contributes the lines of its declarations; names, parameter lists and
   * anything else contribute nothing.
   */
  function DefinitionBody(md: seq<MetaData>, cs: seq<Node>, filePath: string): Outcome<seq<string>> {
    if cs == [] then Ok([])
    else if cs[0].rule == FunctionBlock then
      Then(BodyLines(md, ChildrenTagged(cs[0].children, Declaration), filePath), DefinitionBody(md, cs[1..], filePath))
    else DefinitionBody(md, cs[1..], filePath)
  }

  /** The defined name: the last `function_name` child, trimmed. */
  function DefinedName(def: Node): string {
    Trim(LastText(def.children, FunctionName))
  }

  /**
   * `process_function_definition`: the metadata with one `Function` entry
   * appended, or the error of the first declaration whose reference is unknown.
   */
  function ProcessFunctionDefinition(md: seq<MetaData>, def: Node, filePath: string): (r: Outcome<seq<MetaData>>)
    ensures r.Err? <==> DefinitionBody(md, def.children, filePath).Err?
    ensures r.Ok? ==> |r.value| == |md| + 1 && r.value[..|md|] == md
    ensures r.Ok? ==> r.value[|md|] == Function(DefinedName(def), DefinitionBody(md, def.children, filePath).value)
    ensures r.Err? ==> r.error == DefinitionBody(md, def.children, filePath).error
    ensures r.Err? ==>
              exists i :: FirstFailureAt(md, BlockDeclarations(def.children), filePath, i)
                          && r.error == DeclLines(BlockDeclarations(def.children)[i], md, filePath).error
  {
    match DefinitionBody(md, def.children, filePath)
    case Err(e) =>
      DefinitionFlattens(md, def.children, filePath);
      BodyLinesFailure(md, BlockDeclarations(def.children), filePath);
      Err(e)
    case Ok(body) =>
      var r := md + [Function(DefinedName(def), body)];
      assert r[..|md|] == md;
      Ok(r)
  }

  // ---------------------------------------------------------------- properties

  /** The declarations of every `function_block` child, flattened in source order. */
  function BlockDeclarations(cs: seq<Node>): seq<Node> {
    if cs == [] then []
    else (if cs[0].rule == FunctionBlock then ChildrenTagged(cs[0].children, Declaration) else [])
         + BlockDeclarations(cs[1..])
  }

  lemma ThenAssociative(x: Outcome<seq<string>>, y: Outcome<seq<string>>, z: Outcome<seq<string>>)
    ensures Then(x, Then(y, z)) == Then(Then(x, y), z)
  {
    if x.Ok? && y.Ok? && z.Ok? {
      assert x.value + (y.value + z.value) == (x.value + y.value) + z.value;
    }
  }

  /** Resolving two runs of declarations one after the other is resolving their concatenation. */
  lemma {:induction false} BodyLinesAppend(md: seq<MetaData>, a: seq<Node>, b: seq<Node>, filePath: string)
    ensures BodyLines(md, a + b, filePath) == Then(BodyLines(md, a, filePath), BodyLines(md, b, filePath))
  {
    if a != [] {
      assert (a + b)[1..] == a[1..] + b;
      assert (a + b)[0] == a[0];
      BodyLinesAppend(md, a[1..], b, filePath);
      ThenAssociative(DeclLines(a[0], md, filePath), BodyLines(md, a[1..], filePath), BodyLines(md, b, filePath));
    } else {
      assert a + b == b;
      if BodyLines(md, b, filePath).Ok? {
        assert [] + BodyLines(md, b, filePath).value == BodyLines(md, b, filePath).value;
      }
    }
  }

  /**
   * The nested walk over blocks and their declarations is one walk over all
   * block declarations: the grouping into blocks and every child that is not
   * a block (the name, the parameter list) play no part in the body.
   */
  lemma {:induction false} DefinitionFlattens(md: seq<MetaData>, cs: seq<Node>, filePath: string)
    ensures DefinitionBody(md, cs, filePath) == BodyLines(md, BlockDeclarations(cs), filePath)
  {
    if cs != [] {
      DefinitionFlattens(md, cs[1..], filePath);
      if cs[0].rule == FunctionBlock {
        BodyLinesAppend(md, ChildrenTagged(cs[0].children, Declaration), BlockDeclarations(cs[1..]), filePath);
      } else {
        assert BlockDeclarations(cs) == [] + BlockDeclarations(cs[1..]);
        assert [] + BlockDeclarations(cs[1..]) == BlockDeclarations(cs[1..]);
      }
    }
  }

  /** `d` is the first declaration of the run whose reference does not resolve. */
  predicate FirstFailureAt(md: seq<MetaData>, decls: seq<Node>, filePath: string, i: int) {
    0 <= i < |decls| && DeclLines(decls[i], md, filePath).Err?
    && forall j :: 0 <= j < i ==> DeclLines(decls[j], md, filePath).Ok?
  }

  /**
   * A run fails exactly when one of its declarations fails, and then with
   * the error of the first one.
   */
  lemma {:induction false} BodyLinesFailure(md: seq<MetaData>, decls: seq<Node>, filePath: string)
    ensures BodyLines(md, decls, filePath).Err? <==>
            exists i :: 0 <= i < |decls| && DeclLines(decls[i], md, filePath).Err?
    ensures BodyLines(md, decls, filePath).Err? ==>
            exists i :: FirstFailureAt(md, decls, filePath, i)
                        && BodyLines(md, decls, filePath).error == DeclLines(decls[i], md, filePath).error
  {
    if decls != [] {
      var tail := decls[1..];
      BodyLinesFailure(md, tail, filePath);
      var d := DeclLines(decls[0], md, filePath);
      assert BodyLines(md, decls, filePath) == Then(d, BodyLines(md, tail, filePath));
      if d.Err? {
        assert FirstFailureAt(md, decls, filePath, 0);
      } else {
        FailureShift(md, decls, filePath);
      }
    }
  }

  /** After a declaration that resolves, the failures of the run are those of the rest, one place on. */
  lemma FailureShift(md: seq<MetaData>, decls: seq<Node>, filePath: string)
    requires decls != [] && DeclLines(decls[0], md, filePath).Ok?
    ensures (exists i :: 0 <= i < |decls| && DeclLines(decls[i], md, filePath).Err?)
            <==> (exists i :: 0 <= i < |decls[1..]| && DeclLines(decls[1..][i], md, filePath).Err?)
    ensures forall i :: FirstFailureAt(md, decls[1..], filePath, i) ==> FirstFailureAt(md, decls, filePath, i + 1)
  {
    var tail := decls[1..];
    assert forall i :: 0 < i < |decls| ==> decls[i] == tail[i - 1];
    forall i | FirstFailureAt(md, tail, filePath, i) ensures FirstFailureAt(md, decls, filePath, i + 1) {
      assert decls[i + 1] == tail[i];
    }
  }

  /** The line `process_variable_declaration` yields for every declaration. */
  function ResolvedLines(md: seq<MetaData>, decls: seq<Node>, filePath: string): (r: seq<string>)
    requires forall i :: 0 <= i < |decls| ==> ResolveDeclaration(decls[i], md, filePath).Ok?
    ensures |r| == |decls| && forall i {:trigger r[i]} :: 0 <= i < |decls| ==> r[i] == ResolveDeclaration(decls[i], md, filePath).value
  {
    if decls == [] then []
    else
      var rest := decls[1..];
      assert forall i :: 0 <= i < |rest| ==> rest[i] == decls[i + 1];
      [ResolveDeclaration(decls[0], md, filePath).value] + ResolvedLines(md, rest, filePath)
  }

  /** Declarations without references are stored trimmed, one line each. */
  lemma {:induction false} ReferenceFreeBody(md: seq<MetaData>, decls: seq<Node>, filePath: string)
    requires forall i :: 0 <= i < |decls| ==> Reference(decls[i]) == []
    ensures BodyLines(md, decls, filePath) == Ok(TrimmedTexts(decls))
  {
    if decls != [] {
      assert forall i :: 0 < i < |decls| ==> decls[i] == decls[1..][i - 1];
      ReferenceFreeBody(md, decls[1..], filePath);
      assert DeclLines(decls[0], md, filePath) == Ok([Trim(decls[0].text)]);
    }
  }

  /**
   * When every reference resolves and no variable is declared twice, the body holds
   * one line per declaration: the line `process_variable_declaration` yields.
   */
  lemma {:induction false} UniqueVariablesBody(md: seq<MetaData>, decls: seq<Node>, filePath: string)
    requires forall i :: 0 <= i < |decls| ==> ResolveDeclaration(decls[i], md, filePath).Ok?
    requires forall i :: 0 <= i < |decls| && Reference(decls[i]) != [] ==> |AllValues(md, RefName(Reference(decls[i])))| <= 1
    ensures BodyLines(md, decls, filePath) == Ok(ResolvedLines(md, decls, filePath))
  {
    if decls != [] {
      assert forall i :: 0 < i < |decls| ==> decls[i] == decls[1..][i - 1];
      UniqueVariablesBody(md, decls[1..], filePath);
      DeclLinesAgree(decls[0], md, filePath);
      var d := DeclLines(decls[0], md, filePath);
      assert d.Ok? && |d.value| == 1;
      assert d.value == [ResolveDeclaration(decls[0], md, filePath).value];
    }
  }

  /** A call of the name just defined finds exactly the body just recorded. */
  lemma DefinedThenCallable(md: seq<MetaData>, def: Node, filePath: string)
    requires ProcessFunctionDefinition(md, def, filePath).Ok?
    ensures SelectorEngine.LastFunctionBody(ProcessFunctionDefinition(md, def, filePath).value, DefinedName(def))
            == DefinitionBody(md, def.children, filePath).value
  {
  }
}
