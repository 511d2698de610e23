/**
 * The media-query printer of src/rcss/process_x/media_query.rs. It is the
 * one of src/rcss/compiler.rs with two differences: rules are printed by the
 * crate's metadata-aware `process_rule`, and a nested query is printed by a
 * call that passes `verbose` and `human_readable` in swapped positions.
 */
module MediaEmitter {
  import opened Text
  import opened Syntax
  import RuleEmitter

  /**
   * The crate's `process_rule(pair, meta_data, human_readable, verbose)`,
   * with the metadata bound; its code is not part of this model.
   */
  type RuleRenderer = (Node, bool, bool) -> string

  /** `process_media_query` as written: one `@media` block around the printed children. */
  function ProcessMediaQueryAsWritten(mq: Node, hr: bool, verbose: bool, rule: RuleRenderer): (r: string)
    ensures StartsWith(r, "@media" + RuleEmitter.Space(hr) + RuleEmitter.Condition(mq) + "{" + RuleEmitter.Newline(hr))
    ensures EndsWith(r, "}" + RuleEmitter.Newline(hr))
    decreases mq, 1
  {
    RuleEmitter.MediaBlock(hr, RuleEmitter.Condition(mq), InnerAsWritten(mq, hr, verbose, rule, 0))
  }

  /** As written: a nested query gets `verbose` as its mode and `hr` as its verbosity. */
  function InnerAsWritten(mq: Node, hr: bool, verbose: bool, rule: RuleRenderer, i: nat): seq<string>
    decreases mq, 0, |mq.children| - i
  {
    if i >= |mq.children| then []
    else
      var c := mq.children[i];
      (if c.rule == RuleNormal then [rule(c, hr, verbose)]
       else if c.rule == MediaQuery then [ProcessMediaQueryAsWritten(c, verbose, hr, rule)]
       else [])
      + InnerAsWritten(mq, hr, verbose, rule, i + 1)
  }

  /** `process_media_query` with the nested call passing the modes in order. */
  function ProcessMediaQuery(mq: Node, hr: bool, verbose: bool, rule: RuleRenderer): (r: string)
    ensures StartsWith(r, "@media" + RuleEmitter.Space(hr) + RuleEmitter.Condition(mq) + "{" + RuleEmitter.Newline(hr))
    ensures EndsWith(r, "}" + RuleEmitter.Newline(hr))
    decreases mq, 1
  {
    RuleEmitter.MediaBlock(hr, RuleEmitter.Condition(mq), Inner(mq, hr, verbose, rule, 0))
  }

  function Inner(mq: Node, hr: bool, verbose: bool, rule: RuleRenderer, i: nat): seq<string>
    decreases mq, 0, |mq.children| - i
  {
    if i >= |mq.children| then []
    else
      var c := mq.children[i];
      (if c.rule == RuleNormal then [rule(c, hr, verbose)]
       else if c.rule == MediaQuery then [ProcessMediaQuery(c, hr, verbose, rule)]
       else [])
      + Inner(mq, hr, verbose, rule, i + 1)
  }

  // ---------------------------------------------------------------- properties

  /** The rule printer of src/rcss/compiler.rs, as written, which ignores verbosity. */
  function PlainRules(): RuleRenderer {
    (c: Node, hr: bool, verbose: bool) => RuleEmitter.ProcessRuleAsWritten(c, hr)
  }

  /**
   * Given the same rule printer, the corrected printer and the one of
   * src/rcss/compiler.rs produce the same text, nested queries included.
   */
  lemma {:induction false} AgreesWithCompiler(mq: Node, hr: bool, verbose: bool)
    ensures ProcessMediaQuery(mq, hr, verbose, PlainRules()) == RuleEmitter.ProcessMediaQuery(mq, hr)
    decreases mq, 1
  {
    InnerAgrees(mq, hr, verbose, 0);
  }

  lemma {:induction false} InnerAgrees(mq: Node, hr: bool, verbose: bool, i: nat)
    ensures Inner(mq, hr, verbose, PlainRules(), i) == RuleEmitter.InnerBlocks(mq, hr, i)
    decreases mq, 0, |mq.children| - i
  {
    if i < |mq.children| {
      var c := mq.children[i];
      InnerAgrees(mq, hr, verbose, i + 1);
      if c.rule == MediaQuery {
        AgreesWithCompiler(c, hr, verbose);
      }
    }
  }

  /** When both flags are equal the swap is invisible: as written equals corrected. */
  lemma {:induction false} EqualFlagsUnaffected(mq: Node, flag: bool, rule: RuleRenderer)
    ensures ProcessMediaQueryAsWritten(mq, flag, flag, rule) == ProcessMediaQuery(mq, flag, flag, rule)
    decreases mq, 1
  {
    InnerEqualFlags(mq, flag, rule, 0);
  }

  lemma {:induction false} InnerEqualFlags(mq: Node, flag: bool, rule: RuleRenderer, i: nat)
    ensures InnerAsWritten(mq, flag, flag, rule, i) == Inner(mq, flag, flag, rule, i)
    decreases mq, 0, |mq.children| - i
  {
    if i < |mq.children| {
      var c := mq.children[i];
      InnerEqualFlags(mq, flag, rule, i + 1);
      if c.rule == MediaQuery {
        EqualFlagsUnaffected(c, flag, rule);
      }
    }
  }

  /** A query holding one empty nested query. */
  function NestedEmpty(): Node {
    Node(MediaQuery, "", [Node(MediaQuery, "", [], 2, 5)], 1, 1)
  }

  /** Human-readable but not verbose, as written the nested query is printed compact. */
  lemma NestedQueryAsWritten(rule: RuleRenderer)
    ensures ProcessMediaQueryAsWritten(NestedEmpty(), true, false, rule) == "@media {\n    @media{}\n}\n"
  {
    var mq := NestedEmpty();
    EmptyCondition(mq);
    NestedInnerAsWritten(rule);
    IndentOneLine("@media{}");
    ReadableBlock([], ["@media{}"]);
    assert ProcessMediaQueryAsWritten(mq, true, false, rule) == "@media " + [] + "{\n" + ("    " + "@media{}" + "\n") + "}\n";
    LiteralNestedCompact();
  }

  lemma NestedInnerAsWritten(rule: RuleRenderer)
    ensures InnerAsWritten(NestedEmpty(), true, false, rule, 0) == ["@media{}"]
  {
    var mq := NestedEmpty();
    var c := mq.children[0];
    EmptyCondition(c);
    assert InnerAsWritten(c, false, true, rule, 0) == [];
    assert ProcessMediaQueryAsWritten(c, false, true, rule) == "@media{}";
    assert InnerAsWritten(mq, true, false, rule, 1) == [];
  }

  lemma LiteralNestedCompact()
    ensures "@media " + [] + "{\n" + ("    " + "@media{}" + "\n") + "}\n" == "@media {\n    @media{}\n}\n"
  {
  }

  /** Corrected, the nested query is printed human-readable and indented like any other block. */
  lemma NestedQueryCorrected(rule: RuleRenderer)
    ensures ProcessMediaQuery(NestedEmpty(), true, false, rule) == "@media {\n    @media {\n    }\n}\n"
  {
    var mq := NestedEmpty();
    var inner := Inner(mq, true, false, rule, 0);
    EmptyCondition(mq);
    NestedInner(rule);
    IndentTwoLines("@media {", "}");
    var body := "    " + "@media {" + "\n" + "    " + "}" + "\n";
    assert RuleEmitter.IndentBlocks(inner) == body;
    ReadableBlock([], inner);
    assert ProcessMediaQuery(mq, true, false, rule) == "@media " + [] + "{\n" + body + "}\n";
    LiteralNested();
  }

  lemma LiteralNested()
    ensures "@media " + [] + "{\n" + ("    " + "@media {" + "\n" + "    " + "}" + "\n") + "}\n"
            == "@media {\n    @media {\n    }\n}\n"
  {
  }

  lemma NestedInner(rule: RuleRenderer)
    ensures Inner(NestedEmpty(), true, false, rule, 0) == ["@media {" + "\n" + "}" + "\n"]
  {
    var mq := NestedEmpty();
    EmptyQueryReadable(mq.children[0], rule);
    assert Inner(mq, true, false, rule, 1) == [];
  }

  lemma EmptyQueryReadable(c: Node, rule: RuleRenderer)
    requires c == Node(MediaQuery, "", [], 2, 5)
    ensures ProcessMediaQuery(c, true, false, rule) == "@media {" + "\n" + "}" + "\n"
  {
    EmptyCondition(c);
    assert Inner(c, true, false, rule, 0) == [];
  }

  lemma IndentOneLine(l: string)
    requires l != [] && '\n' !in l
    ensures RuleEmitter.IndentBlocks([l]) == "    " + l + "\n"
  {
    assert SplitOnce(l, '\n').None?;
    assert Lines(l) == [l];
    var ind := RuleEmitter.Indented([l]);
    assert |ind| == 1 && ind[0] == "    " + l;
    assert ind == ["    " + l];
    assert Unlines(ind) == "    " + l + "\n";
    assert [l][1..] == [];
  }

  lemma IndentTwoLines(a: string, b: string)
    requires PlainLine(a) && PlainLine(b)
    ensures RuleEmitter.IndentBlocks([a + "\n" + b + "\n"]) == "    " + a + "\n" + "    " + b + "\n"
  {
    var x := a + "\n" + b + "\n";
    var ia, ib := "    " + a, "    " + b;
    LinesOfTwo(a, b);
    IndentedTwo(a, b);
    UnlinesTwo(ia, ib);
    IndentBlockOf(x, [a, b], [ia, ib], ia + "\n" + ib + "\n");
    assert ia + "\n" + ib + "\n" == "    " + a + "\n" + "    " + b + "\n";
  }

  lemma IndentBlockOf(x: string, ls: seq<string>, ind: seq<string>, out: string)
    requires Lines(x) == ls && RuleEmitter.Indented(ls) == ind && Unlines(ind) == out
    ensures RuleEmitter.IndentBlocks([x]) == out
  {
    IndentOneBlock(x);
  }

  lemma LinesOfTwo(a: string, b: string)
    requires PlainLine(a) && PlainLine(b)
    ensures Lines(a + "\n" + b + "\n") == [a, b]
  {
    UnlinesTwo(a, b);
    LinesOfUnlines([a, b]);
  }

  lemma IndentOneBlock(x: string)
    ensures RuleEmitter.IndentBlocks([x]) == Unlines(RuleEmitter.Indented(Lines(x)))
  {
    assert [x][1..] == [];
  }

  lemma IndentedTwo(a: string, b: string)
    ensures RuleEmitter.Indented([a, b]) == ["    " + a, "    " + b]
  {
    var ind := RuleEmitter.Indented([a, b]);
    assert |ind| == 2 && ind[0] == "    " + a && ind[1] == "    " + b;
  }

  lemma UnlinesTwo(a: string, b: string)
    ensures Unlines([a, b]) == a + "\n" + b + "\n"
  {
    assert [a, b][1..] == [b] && [b][1..] == [];
    assert Unlines([b]) == b + "\n" + Unlines([]);
    assert Unlines([a, b]) == a + "\n" + Unlines([b]);
  }

  lemma ReadableBlock(condition: string, blocks: seq<string>)
    ensures RuleEmitter.MediaBlock(true, condition, blocks) == "@media " + condition + "{\n" + RuleEmitter.IndentBlocks(blocks) + "}\n"
  {
  }

  lemma EmptyCondition(mq: Node)
    requires mq.children == [] || mq.children == [Node(MediaQuery, "", [], 2, 5)]
    ensures RuleEmitter.Condition(mq) == []
  {
    if mq.children != [] {
      assert mq.children[1..] == [];
      assert LastTextAfter(mq.children, MediaCondition, []) == LastTextAfter([], MediaCondition, []);
    }
    assert LastText(mq.children, MediaCondition) == [];
  }

}
