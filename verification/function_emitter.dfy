/**
 * User functions in the text emitter (src/rcss/process_x/function.rs): a
 * definition becomes a metadata value, and a call prints the function's
 * declarations, each ended by a semicolon.
 */
module FunctionEmitter {
  import opened Wrappers
  import opened Text
  import opened Syntax
  import RuleEmitter

  /** The compiler's `Function` record. */
  datatype FunctionDef = FunctionDef(name: string, parameters: seq<string>, declarations: seq<string>)

  /** A metadata value: a function, or another kind of value whose contents play no part here. */
  datatype MetaDataValue = FunctionValue(def: FunctionDef) | OtherValue

  /** The trimmed `declaration` children of a `function_block`. */
  function BlockDeclarations(block: Node): seq<string> {
    TrimmedTexts(ChildrenTagged(block.children, Declaration))
  }

  /**
   * `process_function_definition` as written: the loop returns at the end
   * of its first pass, so only the first child is looked at, and a function
   * is returned only when that child is a non-empty `function_name`.
   */
  function ProcessFunctionDefinitionAsWritten(def: Node): (r: Option<MetaDataValue>)
    ensures r.Some? <==> def.children != [] && def.children[0].rule == FunctionName && def.children[0].text != []
    ensures r.Some? ==> r.value == FunctionValue(FunctionDef(def.children[0].text, [], []))
  {
    if def.children == [] then None
    else
      var c := def.children[0];
      var name := if c.rule == FunctionName then c.text else [];
      var declarations := if c.rule == FunctionBlock then BlockDeclarations(c) else [];
      if name != [] then Some(FunctionValue(FunctionDef(name, [], declarations))) else None
  }

  /** The declarations of every `function_block` child, in order. */
  function AllDeclarations(cs: seq<Node>): seq<string> {
    if cs == [] then []
    else (if cs[0].rule == FunctionBlock then BlockDeclarations(cs[0]) else []) + AllDeclarations(cs[1..])
  }

  /**
   * `process_function_definition` with the return moved after the loop:
   * the last `function_name` (raw) and the declarations of all blocks; no
   * function when the name is empty. Parameters are never collected.
   */
  function ProcessFunctionDefinition(def: Node): (r: Option<MetaDataValue>)
    ensures r.Some? <==> LastText(def.children, FunctionName) != []
    ensures r.Some? ==> r.value.FunctionValue? && r.value.def.name == LastText(def.children, FunctionName)
                        && r.value.def.parameters == []
  {
    var name := LastText(def.children, FunctionName);
    if name != [] then Some(FunctionValue(FunctionDef(name, [], AllDeclarations(def.children)))) else None
  }

  /** The name a call refers to: every trailing `();` removed, then trimmed. */
  function CalledName(text: string): string {
    Trim(TrimEndMatches(text, "();"))
  }

  /** A declaration ended by a semicolon, unless it already has one. */
  function WithSemicolon(decl: string): (r: string)
    ensures EndsWith(r, ";")
    ensures EndsWith(decl, ";") ==> r == decl
    ensures !EndsWith(decl, ";") ==> r == decl + ";"
  {
    decl + (if EndsWith(decl, ";") then "" else ";")
  }

  function CallLines(hr: bool, decls: seq<string>): string {
    if decls == [] then []
    else RuleEmitter.Indent(hr) + WithSemicolon(decls[0]) + RuleEmitter.Newline(hr) + CallLines(hr, decls[1..])
  }

  /**
   * `process_function_call`: the function's declarations printed, or
   * nothing when the name is unknown or names another kind of value.
   * Verbosity only logs the call.
   */
  function ProcessFunctionCall(call: Node, md: map<string, MetaDataValue>, hr: bool, verbose: bool)
    : (r: Option<string>)
    ensures r.Some? <==> CalledName(call.text) in md && md[CalledName(call.text)].FunctionValue?
  {
    var name := CalledName(call.text);
    if name in md && md[name].FunctionValue? then Some(CallLines(hr, md[name].def.declarations)) else None
  }

  // ---------------------------------------------------------------- properties

  /** Adding the semicolon twice is the same as adding it once. */
  lemma WithSemicolonIdempotent(decl: string)
    ensures WithSemicolon(WithSemicolon(decl)) == WithSemicolon(decl)
    ensures EndsWith(decl, ";") ==> WithSemicolon(decl) == decl
  {
  }

  function SemicolonLines(decls: seq<string>): (r: seq<string>)
    ensures |r| == |decls| && forall i {:trigger r[i]} :: 0 <= i < |decls| ==> r[i] == WithSemicolon(decls[i])
  {
    if decls == [] then [] else [WithSemicolon(decls[0])] + SemicolonLines(decls[1..])
  }

  /** Human-readable calls print one indented line per declaration. */
  lemma {:induction false} ReadableCallLines(decls: seq<string>)
    ensures CallLines(true, decls) == Unlines(RuleEmitter.Indented(SemicolonLines(decls)))
  {
    if decls != [] {
      ReadableCallLines(decls[1..]);
      assert SemicolonLines(decls)[1..] == SemicolonLines(decls[1..]);
      assert RuleEmitter.Indented(SemicolonLines(decls))[1..] == RuleEmitter.Indented(SemicolonLines(decls[1..]));
    }
  }

  /**
   * Read back line by line, a human-readable call is its declarations,
   * indented by four spaces and each ending in a semicolon.
   */
  lemma CallLinesReadBack(decls: seq<string>)
    requires forall i :: 0 <= i < |decls| ==> '\n' !in decls[i]
    ensures Lines(CallLines(true, decls)) == RuleEmitter.Indented(SemicolonLines(decls))
    ensures forall i :: 0 <= i < |decls| ==> EndsWith(Lines(CallLines(true, decls))[i], ";")
  {
    ReadableCallLines(decls);
    var ls := RuleEmitter.Indented(SemicolonLines(decls));
    forall i | 0 <= i < |ls| ensures PlainLine(ls[i]) && EndsWith(ls[i], ";") {
      SemicolonLinePlain(decls[i]);
    }
    LinesOfUnlines(ls);
  }

  lemma SemicolonLinePlain(decl: string)
    requires '\n' !in decl
    ensures PlainLine("    " + WithSemicolon(decl)) && EndsWith("    " + WithSemicolon(decl), ";")
  {
    var l := "    " + WithSemicolon(decl);
    assert l[|l| - 1] == ';';
    assert '\n' !in l;
  }

  /** Compact calls run the declarations together, each ended by its semicolon. */
  lemma {:induction false} CompactCallLines(decls: seq<string>)
    ensures CallLines(false, decls) == Concat(SemicolonLines(decls))
  {
    if decls != [] {
      CompactCallLines(decls[1..]);
      var sl := SemicolonLines(decls);
      assert sl[0] == WithSemicolon(decls[0]) && sl[1..] == SemicolonLines(decls[1..]);
      CompactCallStep(decls);
      assert Concat(sl) == sl[0] + Concat(sl[1..]);
    }
  }

  lemma CompactCallStep(decls: seq<string>)
    requires decls != []
    ensures CallLines(false, decls) == WithSemicolon(decls[0]) + CallLines(false, decls[1..])
  {
    var w := WithSemicolon(decls[0]);
    var rest := CallLines(false, decls[1..]);
    assert CallLines(false, decls) == RuleEmitter.Indent(false) + w + RuleEmitter.Newline(false) + rest;
    EmptyAround(w, rest);
  }

  lemma EmptyAround(w: string, rest: string)
    ensures RuleEmitter.Indent(false) + w + RuleEmitter.Newline(false) + rest == w + rest
  {
    assert RuleEmitter.Indent(false) == [] && RuleEmitter.Newline(false) == [];
    assert [] + w == w && w + [] == w;
  }

  /** A call written `name();` refers to `name`. */
  lemma CalledNameOfCall(name: string)
    requires Trimmed(name) && !EndsWith(name, "();")
    ensures CalledName(name + "();") == name
  {
    var s := name + "();";
    assert s[|s| - 3..] == "();";
    assert EndsWith(s, "();");
    assert s[..|s| - 3] == name;
    assert TrimEndMatches(s, "();") == TrimEndMatches(name, "();");
    assert TrimEndMatches(name, "();") == name;
    TrimOfTrimmed(name);
  }

  /**
   * Once a definition is stored under its name, a call to that name prints
   * the declarations of every block of the definition.
   */
  lemma DefineThenCall(def: Node, md: map<string, MetaDataValue>, hr: bool, verbose: bool, line: nat, column: nat)
    requires ProcessFunctionDefinition(def).Some?
    requires Trimmed(LastText(def.children, FunctionName)) && !EndsWith(LastText(def.children, FunctionName), "();")
    ensures var name := LastText(def.children, FunctionName);
            var call := Node(UserCreatedFunctionCall, name + "();", [], line, column);
            ProcessFunctionCall(call, md[name := ProcessFunctionDefinition(def).value], hr, verbose)
            == Some(CallLines(hr, AllDeclarations(def.children)))
  {
    CalledNameOfCall(LastText(def.children, FunctionName));
  }

  /** As written, a stored definition never has declarations, so a call prints nothing. */
  lemma AsWrittenCallPrintsNothing(def: Node, md: map<string, MetaDataValue>, hr: bool, verbose: bool, line: nat, column: nat)
    requires ProcessFunctionDefinitionAsWritten(def).Some?
    requires Trimmed(def.children[0].text) && !EndsWith(def.children[0].text, "();")
    ensures var name := def.children[0].text;
            var call := Node(UserCreatedFunctionCall, name + "();", [], line, column);
            ProcessFunctionCall(call, md[name := ProcessFunctionDefinitionAsWritten(def).value], hr, verbose)
            == Some([])
  {
    CalledNameOfCall(def.children[0].text);
  }

  /** `f` with a block holding `color: red`. */
  function ColorFunction(): Node {
    Node(OtherRule, "", [Node(FunctionName, "f", [], 1, 4),
                                  Node(FunctionBlock, "", [Node(Declaration, "color: red", [], 2, 5)], 1, 8)], 1, 1)
  }

  /** The definition above keeps its declaration once corrected and loses it as written. */
  lemma ColorFunctionExample()
    ensures ProcessFunctionDefinitionAsWritten(ColorFunction()) == Some(FunctionValue(FunctionDef("f", [], [])))
    ensures ProcessFunctionDefinition(ColorFunction()) == Some(FunctionValue(FunctionDef("f", [], ["color: red"])))
  {
    var cs := ColorFunction().children;
    LastMatchWins(cs, FunctionName, [], 0);
    var block := cs[1];
    assert ChildrenTagged(block.children, Declaration) == block.children;
    TrimOfTrimmed("color: red");
    assert BlockDeclarations(block) == ["color: red"];
    assert cs[1..] == [block] && [block][1..] == [];
    assert AllDeclarations(cs) == ["color: red"];
  }
}
