/**
 * The text emitter of src/rcss/compiler.rs: a rule block and a media query
 * printed as CSS, either human-readable (newlines, a space before `{`,
 * four-space indentation) or compact (none of these).
 */
module RuleEmitter {
  import opened Text
  import opened Syntax

  function Newline(hr: bool): string { if hr then "\n" else "" }

  function Space(hr: bool): string { if hr then " " else "" }

  /** `space.repeat(indent_size)`: four spaces, or nothing. */
  function Indent(hr: bool): string { if hr then "    " else "" }

  /** The selectors printed so far, each followed by a separator, and the output so far. */
  datatype RuleState = RuleState(previous: string, out: string)

  /**
   * The opening of a selector block: the first selector opens it; a later
   * one closes the block before and opens one for the earlier selectors
   * followed by this one.
   */
  function SelectorHeader(hr: bool, previous: string, selector: string): string {
    if previous == [] then selector + Space(hr) + "{" + Newline(hr)
    else "}" + Space(hr) + Trim(previous) + " " + selector + Space(hr) + "{" + Newline(hr)
  }

  function DeclarationLine(hr: bool, text: string): string {
    Indent(hr) + Trim(text) + Newline(hr)
  }

  /**
   * One child of a rule. `sep` is what follows each selector in the
   * remembered list: `space` in the source, that is nothing in compact mode.
   * Other children are only logged.
   */
  function RuleStep(hr: bool, sep: string, st: RuleState, n: Node): RuleState {
    match n.rule
    case Selector =>
      var t := Trim(n.text);
      RuleState(st.previous + t + sep, st.out + SelectorHeader(hr, st.previous, t))
    case Declaration => st.(out := st.out + DeclarationLine(hr, n.text))
    case _ => st
  }

  function RuleRun(hr: bool, sep: string, st: RuleState, cs: seq<Node>): RuleState
    decreases |cs|
  {
    if cs == [] then st else RuleRun(hr, sep, RuleStep(hr, sep, st, cs[0]), cs[1..])
  }

  /** `process_rule` as written: selectors are remembered followed by `space`. */
  function ProcessRuleAsWritten(rule: Node, hr: bool): (r: string)
    ensures EndsWith(r, "}" + Newline(hr))
  {
    RuleRun(hr, Space(hr), RuleState([], []), rule.children).out + "}" + Newline(hr)
  }

  /**
   * `process_rule` with the remembered selectors separated by one space in
   * both modes; human-readable output is the same as written.
   */
  function ProcessRule(rule: Node, hr: bool): (r: string)
    ensures EndsWith(r, "}" + Newline(hr))
    ensures hr ==> r == ProcessRuleAsWritten(rule, hr)
  {
    RuleRun(hr, " ", RuleState([], []), rule.children).out + "}" + Newline(hr)
  }

  // ---------------------------------------------------------------- media queries

  /** The condition: the last `media_condition` child, trimmed, or "" when there is none. */
  function Condition(mq: Node): string {
    Trim(LastText(mq.children, MediaCondition))
  }

  /** Every line of every inner block, in order. */
  function AllLines(blocks: seq<string>): seq<string> {
    if blocks == [] then [] else Lines(blocks[0]) + AllLines(blocks[1..])
  }

  /** Lines indented by four spaces. */
  function Indented(ls: seq<string>): seq<string> {
    Prefixed("    ", ls)
  }

  /** Human-readable body: each line of each block indented and ended by a newline. */
  function IndentBlocks(blocks: seq<string>): string {
    if blocks == [] then [] else Unlines(Indented(Lines(blocks[0]))) + IndentBlocks(blocks[1..])
  }

  /** A media query around already printed blocks: the header opens it and `}` closes it. */
  function MediaBlock(hr: bool, condition: string, blocks: seq<string>): (r: string)
    ensures StartsWith(r, "@media" + Space(hr) + condition + "{" + Newline(hr))
    ensures EndsWith(r, "}" + Newline(hr))
  {
    "@media" + Space(hr) + condition + "{" + Newline(hr)
    + (if hr then IndentBlocks(blocks) else Concat(blocks))
    + "}" + Newline(hr)
  }

  /**
   * `process_media_query`: rules (by the as-written rule printer) and nested
   * queries printed in the same mode, in order; comments and anything else
   * print nothing. The result is one `@media` block around them.
   */
  function ProcessMediaQuery(mq: Node, hr: bool): (r: string)
    ensures StartsWith(r, "@media" + Space(hr) + Condition(mq) + "{" + Newline(hr))
    ensures EndsWith(r, "}" + Newline(hr))
    decreases mq, 1
  {
    MediaBlock(hr, Condition(mq), InnerBlocks(mq, hr, 0))
  }

  /** The printed children of `mq` from index `i` on. */
  function InnerBlocks(mq: Node, hr: bool, i: nat): (r: seq<string>)
    decreases mq, 0, |mq.children| - i
  {
    if i >= |mq.children| then []
    else
      var c := mq.children[i];
      (if c.rule == RuleNormal then [ProcessRuleAsWritten(c, hr)]
       else if c.rule == MediaQuery then [ProcessMediaQuery(c, hr)]
       else [])
      + InnerBlocks(mq, hr, i + 1)
  }

  // ---------------------------------------------------------------- properties

  /** The trimmed texts of the `selector` children, in order. */
  function Selectors(cs: seq<Node>): (r: seq<string>)
    ensures forall i :: 0 <= i < |r| ==> Trimmed(r[i])
  {
    if cs == [] then []
    else (if cs[0].rule == Selector then [Trim(cs[0].text)] else []) + Selectors(cs[1..])
  }

  /** Each string followed by `sep`, all run together. */
  function Terminated(ss: seq<string>, sep: string): string {
    if ss == [] then [] else ss[0] + sep + Terminated(ss[1..], sep)
  }

  lemma {:induction false} SelectorsAppend(a: seq<Node>, b: seq<Node>)
    ensures Selectors(a + b) == Selectors(a) + Selectors(b)
  {
    if a == [] {
      assert a + b == b;
    } else {
      assert (a + b)[1..] == a[1..] + b;
      SelectorsAppend(a[1..], b);
    }
  }

  lemma {:induction false} RuleRunAppend(hr: bool, sep: string, st: RuleState, a: seq<Node>, b: seq<Node>)
    ensures RuleRun(hr, sep, st, a + b) == RuleRun(hr, sep, RuleRun(hr, sep, st, a), b)
    decreases |a|
  {
    if a == [] {
      assert a + b == b;
    } else {
      assert (a + b)[0] == a[0] && (a + b)[1..] == a[1..] + b;
      RuleRunAppend(hr, sep, RuleStep(hr, sep, st, a[0]), a[1..], b);
    }
  }

  /** The remembered list is every selector so far, each followed by the separator. */
  lemma {:induction false} RememberedSelectors(hr: bool, sep: string, st: RuleState, cs: seq<Node>)
    ensures RuleRun(hr, sep, st, cs).previous == st.previous + Terminated(Selectors(cs), sep)
    decreases |cs|
  {
    if cs != [] {
      var st' := RuleStep(hr, sep, st, cs[0]);
      RememberedSelectors(hr, sep, st', cs[1..]);
      if cs[0].rule == Selector {
        var t := Trim(cs[0].text);
        var ss := [t] + Selectors(cs[1..]);
        assert Selectors(cs) == ss;
        assert ss[1..] == Selectors(cs[1..]);
        assert Terminated(ss, sep) == t + sep + Terminated(Selectors(cs[1..]), sep);
        assert st'.previous == st.previous + t + sep;
      } else {
        assert Selectors(cs) == Selectors(cs[1..]);
        assert st'.previous == st.previous;
      }
    }
  }

  lemma {:induction false} TerminatedIsJoin(ss: seq<string>, sep: string)
    requires |ss| >= 1
    ensures Terminated(ss, sep) == Join(ss, sep) + sep
    decreases |ss|
  {
    if |ss| > 1 {
      TerminatedIsJoin(ss[1..], sep);
    }
  }

  /** The first and last characters of a join of non-empty trimmed strings. */
  lemma {:induction false} JoinEnds(ss: seq<string>, sep: string)
    requires |ss| >= 1 && forall i :: 0 <= i < |ss| ==> ss[i] != [] && Trimmed(ss[i])
    ensures var j := Join(ss, sep); j != [] && j[0] == ss[0][0] && j[|j| - 1] == ss[|ss| - 1][|ss[|ss| - 1]| - 1]
    decreases |ss|
  {
    if |ss| > 1 {
      JoinEnds(ss[1..], sep);
      var rest := Join(ss[1..], sep);
      assert Join(ss, sep) == ss[0] + sep + rest;
    }
  }

  /** A string whose ends are not white space, followed by a space, trims back to itself. */
  lemma TrimSpaceAfter(x: string)
    requires x != [] && !IsWhitespace(x[0]) && !IsWhitespace(x[|x| - 1])
    ensures Trim(x + " ") == x
  {
    var s := x + " ";
    assert s[0] == x[0];
    var r := TrimEnd(s);
    assert Trim(s) == r;
    assert |r| != |s|;
    assert r == s[..|x|] == x;
  }

  /**
   * Every selector after the first names, before itself, all earlier
   * selectors separated by single spaces, in both modes.
   */
  lemma NextSelectorHeader(hr: bool, pre: seq<Node>, n: Node)
    requires n.rule == Selector
    requires Selectors(pre) != [] && forall i :: 0 <= i < |Selectors(pre)| ==> Selectors(pre)[i] != []
    ensures RuleRun(hr, " ", RuleState([], []), pre + [n]).out
            == RuleRun(hr, " ", RuleState([], []), pre).out
               + ("}" + Space(hr) + Join(Selectors(pre), " ") + " " + Trim(n.text) + Space(hr) + "{" + Newline(hr))
  {
    var mid := RuleRun(hr, " ", RuleState([], []), pre);
    RuleRunAppend(hr, " ", RuleState([], []), pre, [n]);
    assert RuleRun(hr, " ", mid, [n]) == RuleStep(hr, " ", mid, n);
    RememberedSelectors(hr, " ", RuleState([], []), pre);
    var sels := Selectors(pre);
    var j := Join(sels, " ");
    TerminatedIsJoin(sels, " ");
    JoinEnds(sels, " ");
    TrimSpaceAfter(j);
    assert mid.previous == j + " ";
    assert Trim(mid.previous) == j;
    HeaderAfter(hr, mid.previous, Trim(n.text));
    var step := RuleStep(hr, " ", mid, n);
    assert step.out == mid.out + SelectorHeader(hr, mid.previous, Trim(n.text));
  }

  lemma HeaderAfter(hr: bool, previous: string, t: string)
    requires previous != []
    ensures SelectorHeader(hr, previous, t) == "}" + Space(hr) + Trim(previous) + " " + t + Space(hr) + "{" + Newline(hr)
  {
  }

  /** As written, compact mode runs the earlier selectors together with nothing between them. */
  lemma CompactSelectorsRunTogether(pre: seq<Node>, n: Node)
    requires n.rule == Selector
    requires Concat(Selectors(pre)) != []
    ensures RuleRun(false, Space(false), RuleState([], []), pre + [n]).out
            == RuleRun(false, Space(false), RuleState([], []), pre).out
               + ("}" + Trim(Concat(Selectors(pre))) + " " + Trim(n.text) + "{")
  {
    var sep := Space(false);
    var mid := RuleRun(false, sep, RuleState([], []), pre);
    RuleRunAppend(false, sep, RuleState([], []), pre, [n]);
    assert RuleRun(false, sep, mid, [n]) == RuleStep(false, sep, mid, n);
    RememberedSelectors(false, sep, RuleState([], []), pre);
    TerminatedEmpty(Selectors(pre));
    assert mid.previous == Concat(Selectors(pre));
    CompactHeader(mid.previous, Trim(n.text));
    var step := RuleStep(false, sep, mid, n);
    assert step.out == mid.out + SelectorHeader(false, mid.previous, Trim(n.text));
  }

  lemma CompactHeader(previous: string, t: string)
    requires previous != []
    ensures SelectorHeader(false, previous, t) == "}" + Trim(previous) + " " + t + "{"
  {
    assert Space(false) == [] && Newline(false) == [];
  }

  lemma {:induction false} TerminatedEmpty(ss: seq<string>)
    ensures Terminated(ss, []) == Concat(ss)
  {
    if ss != [] {
      TerminatedEmpty(ss[1..]);
    }
  }

  /** Three compact selectors as written: the third block is headed by `AB C`. */
  lemma ThreeSelectorsAsWritten(rule: Node)
    requires ThreeSelectors(rule.children)
    ensures ProcessRuleAsWritten(rule, false) == "A{}A B{}AB C{}"
  {
    var cs := rule.children;
    FirstSelector([], cs[0]);
    SecondSelectorCompact(cs[1]);
    ThirdSelectorCompact(cs[2]);
    ChainThree(false, [], cs, RuleState("A", "A{"), RuleState("AB", "A{}A B{"), RuleState("ABC", "A{}A B{}AB C{"));
    CompactClose(rule, [], "A{}A B{}AB C{");
  }

  lemma SecondSelectorCompact(n: Node)
    requires n.rule == Selector && n.text == "B"
    ensures RuleStep(false, [], RuleState("A", "A{"), n) == RuleState("AB", "A{}A B{")
  {
    assert "A" + "B" + [] == "AB";
    assert "A{" + ("}" + "A" + " " + "B" + "{") == "A{}A B{";
    TrimLetter('A');
    LaterLetter([], "A", "A{", n, 'B', "A");
  }

  lemma ThirdSelectorCompact(n: Node)
    requires n.rule == Selector && n.text == "C"
    ensures RuleStep(false, [], RuleState("AB", "A{}A B{"), n) == RuleState("ABC", "A{}A B{}AB C{")
  {
    assert "AB" + "C" + [] == "ABC";
    assert "A{}A B{" + ("}" + "AB" + " " + "C" + "{") == "A{}A B{}AB C{";
    TrimTwoLetters('A', 'B');
    LaterLetter([], "AB", "A{}A B{", n, 'C', "AB");
  }

  /** The same rule with the selectors separated: the third block is headed by `A B C`. */
  lemma ThreeSelectorsCorrected(rule: Node)
    requires ThreeSelectors(rule.children)
    ensures ProcessRule(rule, false) == "A{}A B{}A B C{}"
  {
    var cs := rule.children;
    FirstSelector(" ", cs[0]);
    SecondSelectorSeparated(cs[1]);
    ThirdSelectorSeparated(cs[2]);
    ChainThree(false, " ", cs, RuleState("A ", "A{"), RuleState("A B ", "A{}A B{"), RuleState("A B C ", "A{}A B{}A B C{"));
    CompactClose(rule, " ", "A{}A B{}A B C{");
  }

  lemma SecondSelectorSeparated(n: Node)
    requires n.rule == Selector && n.text == "B"
    ensures RuleStep(false, " ", RuleState("A ", "A{"), n) == RuleState("A B ", "A{}A B{")
  {
    assert "A" + " " == "A ";
    assert "A" + " " + "B" + " " == "A B ";
    assert "A{" + ("}" + "A" + " " + "B" + "{") == "A{}A B{";
    SeparatedLetter("A", "A{", n, 'B');
  }

  lemma ThirdSelectorSeparated(n: Node)
    requires n.rule == Selector && n.text == "C"
    ensures RuleStep(false, " ", RuleState("A B ", "A{}A B{"), n) == RuleState("A B C ", "A{}A B{}A B C{")
  {
    assert "A B" + " " == "A B ";
    assert "A B" + " " + "C" + " " == "A B C ";
    assert "A{}A B{" + ("}" + "A B" + " " + "C" + "{") == "A{}A B{}A B C{";
    SeparatedLetter("A B", "A{}A B{", n, 'C');
  }

  /** A compact rule is its headers and declarations followed by one closing brace. */
  lemma CompactClose(rule: Node, sep: string, out: string)
    requires sep == [] || sep == " "
    requires RuleRun(false, sep, RuleState([], []), rule.children).out == out
    ensures sep == [] ==> ProcessRuleAsWritten(rule, false) == out + "}"
    ensures sep == " " ==> ProcessRule(rule, false) == out + "}"
  {
    assert Newline(false) == [] && Space(false) == [];
  }



  /** A one-letter selector after the selectors `p`, remembered followed by one space. */
  lemma SeparatedLetter(p: string, out: string, n: Node, c: char)
    requires 'A' <= c <= 'Z' && n.rule == Selector && n.text == [c]
    requires p != [] && !IsWhitespace(p[0]) && !IsWhitespace(p[|p| - 1])
    ensures RuleStep(false, " ", RuleState(p + " ", out), n)
            == RuleState(p + " " + [c] + " ", out + ("}" + p + " " + [c] + "{"))
  {
    TrimSpaceAfter(p);
    LaterLetter(" ", p + " ", out, n, c, p);
  }

  /** A one-letter compact selector after others, whose remembered text trims to `p`. */
  lemma LaterLetter(sep: string, previous: string, out: string, n: Node, c: char, p: string)
    requires 'A' <= c <= 'Z' && n.rule == Selector && n.text == [c]
    requires previous != [] && Trim(previous) == p
    ensures RuleStep(false, sep, RuleState(previous, out), n)
            == RuleState(previous + [c] + sep, out + ("}" + p + " " + [c] + "{"))
  {
    SelectorLetter(false, sep, RuleState(previous, out), n, c);
    CompactHeader(previous, [c]);
  }

  lemma SelectorLetter(hr: bool, sep: string, st: RuleState, n: Node, c: char)
    requires 'A' <= c <= 'Z' && n.rule == Selector && n.text == [c]
    ensures RuleStep(hr, sep, st, n) == RuleState(st.previous + [c] + sep, st.out + SelectorHeader(hr, st.previous, [c]))
  {
    TrimLetter(c);
  }

  lemma FirstSelector(sep: string, n: Node)
    requires n.rule == Selector && n.text == "A"
    ensures RuleStep(false, sep, RuleState([], []), n) == RuleState("A" + sep, "A{")
  {
    SelectorLetter(false, sep, RuleState([], []), n, 'A');
    assert Space(false) == [] && Newline(false) == [];
  }

  lemma ChainThree(hr: bool, sep: string, cs: seq<Node>, s1: RuleState, s2: RuleState, s3: RuleState)
    requires |cs| == 3
    requires RuleStep(hr, sep, RuleState([], []), cs[0]) == s1
    requires RuleStep(hr, sep, s1, cs[1]) == s2 && RuleStep(hr, sep, s2, cs[2]) == s3
    ensures RuleRun(hr, sep, RuleState([], []), cs) == s3
  {
    RunThree(hr, sep, cs);
  }

  lemma RunThree(hr: bool, sep: string, cs: seq<Node>)
    requires |cs| == 3
    ensures RuleRun(hr, sep, RuleState([], []), cs)
            == RuleStep(hr, sep, RuleStep(hr, sep, RuleStep(hr, sep, RuleState([], []), cs[0]), cs[1]), cs[2])
  {
    var s1 := RuleStep(hr, sep, RuleState([], []), cs[0]);
    var s2 := RuleStep(hr, sep, s1, cs[1]);
    assert cs[1..][0] == cs[1] && cs[1..][1..][0] == cs[2] && cs[1..][1..][1..] == [];
    assert RuleRun(hr, sep, s2, cs[1..][1..]) == RuleRun(hr, sep, RuleStep(hr, sep, s2, cs[2]), []);
  }

  /** Three selector children `A`, `B` and `C`, in that order. */
  predicate ThreeSelectors(cs: seq<Node>) {
    |cs| == 3 && cs[0].rule == Selector && cs[0].text == "A" && cs[1].rule == Selector && cs[1].text == "B"
    && cs[2].rule == Selector && cs[2].text == "C"
  }

  lemma TrimLetter(c: char)
    requires 'A' <= c <= 'Z'
    ensures Trim([c]) == [c]
  {
    TrimOfTrimmed([c]);
  }

  lemma TrimTwoLetters(a: char, b: char)
    requires 'A' <= a <= 'Z' && 'A' <= b <= 'Z'
    ensures Trim([a, b]) == [a, b]
  {
    TrimOfTrimmed([a, b]);
  }

  // ---------------------------------------------------------------- block shapes

  /** The printed lines of a run of declarations. */
  function DeclarationLines(hr: bool, ds: seq<Node>): string {
    if ds == [] then [] else DeclarationLine(hr, ds[0].text) + DeclarationLines(hr, ds[1..])
  }

  predicate AllDeclarations(ds: seq<Node>) {
    forall i :: 0 <= i < |ds| ==> ds[i].rule == Declaration
  }

  /** Declarations only append their lines and leave the remembered selectors alone. */
  lemma {:induction false} DeclarationsRun(hr: bool, sep: string, st: RuleState, ds: seq<Node>)
    requires AllDeclarations(ds)
    ensures RuleRun(hr, sep, st, ds) == RuleState(st.previous, st.out + DeclarationLines(hr, ds))
    decreases |ds|
  {
    if ds == [] {
      assert st.out + DeclarationLines(hr, ds) == st.out;
    } else {
      var line := DeclarationLine(hr, ds[0].text);
      var st' := RuleState(st.previous, st.out + line);
      DeclarationStep(hr, sep, st, ds[0]);
      AllDeclarationsTail(ds);
      DeclarationsRun(hr, sep, st', ds[1..]);
      assert RuleRun(hr, sep, st, ds) == RuleRun(hr, sep, st', ds[1..]);
      AppendTwo(st.out, line, DeclarationLines(hr, ds[1..]));
    }
  }

  lemma DeclarationStep(hr: bool, sep: string, st: RuleState, d: Node)
    requires d.rule == Declaration
    ensures RuleStep(hr, sep, st, d) == RuleState(st.previous, st.out + DeclarationLine(hr, d.text))
  {
  }

  lemma AllDeclarationsTail(ds: seq<Node>)
    requires ds != [] && AllDeclarations(ds)
    ensures ds[0].rule == Declaration && AllDeclarations(ds[1..])
  {
    assert forall i :: 0 <= i < |ds| - 1 ==> ds[1..][i] == ds[i + 1];
  }

  /** Regrouping an appended pair of texts. */
  lemma AppendTwo(out: string, line: string, rest: string)
    ensures out + line + rest == out + (line + rest)
  {
  }

  /**
   * A rule with one selector followed by declarations prints the trimmed
   * selector, the opening brace, one line per trimmed declaration and the
   * closing brace, in both modes and as written.
   */
  lemma SingleSelectorBlock(rule: Node, hr: bool)
    requires |rule.children| >= 1 && rule.children[0].rule == Selector && AllDeclarations(rule.children[1..])
    ensures ProcessRule(rule, hr) == ProcessRuleAsWritten(rule, hr)
            == Trim(rule.children[0].text) + Space(hr) + "{" + Newline(hr)
               + DeclarationLines(hr, rule.children[1..]) + "}" + Newline(hr)
  {
    var cs := rule.children;
    var t := Trim(cs[0].text);
    var head := t + Space(hr) + "{" + Newline(hr);
    assert RuleStep(hr, " ", RuleState([], []), cs[0]) == RuleState(t + " ", head);
    assert RuleStep(hr, Space(hr), RuleState([], []), cs[0]) == RuleState(t + Space(hr), head);
    DeclarationsRun(hr, " ", RuleState(t + " ", head), cs[1..]);
    DeclarationsRun(hr, Space(hr), RuleState(t + Space(hr), head), cs[1..]);
    var decls := DeclarationLines(hr, cs[1..]);
    assert RuleRun(hr, " ", RuleState([], []), cs).out == head + decls;
    assert RuleRun(hr, Space(hr), RuleState([], []), cs).out == head + decls;
  }

  /** In human-readable mode the declaration lines are the indented trimmed declarations. */
  lemma {:induction false} DeclarationLinesUnlines(ds: seq<Node>)
    ensures DeclarationLines(true, ds) == Unlines(Indented(TrimmedTexts(ds)))
  {
    if ds != [] {
      DeclarationLinesUnlines(ds[1..]);
      assert TrimmedTexts(ds)[1..] == TrimmedTexts(ds[1..]);
      assert Indented(TrimmedTexts(ds))[1..] == Indented(TrimmedTexts(ds[1..]));
    }
  }

  /** No newline appears in a trimmed text that had none. */
  lemma TrimKeepsNoNewline(s: string)
    requires '\n' !in s
    ensures '\n' !in Trim(s)
  {
    TrimIsInfix(s);
    var k :| TrimmedAt(s, Trim(s), k);
    assert forall i :: 0 <= i < |Trim(s)| ==> Trim(s)[i] == s[k + i];
  }

  /**
   * Read back line by line, a human-readable single-selector rule is its
   * header line, each declaration indented by four spaces, and `}`.
   */
  lemma SingleSelectorLines(rule: Node)
    requires |rule.children| >= 1 && rule.children[0].rule == Selector && AllDeclarations(rule.children[1..])
    requires forall i :: 0 <= i < |rule.children| ==> '\n' !in rule.children[i].text
    ensures Lines(ProcessRule(rule, true))
            == [Trim(rule.children[0].text) + " {"] + Indented(TrimmedTexts(rule.children[1..])) + ["}"]
  {
    var t := Trim(rule.children[0].text);
    var ds := rule.children[1..];
    var body := Indented(TrimmedTexts(ds));
    ReadableSingleBlock(rule);
    TrimKeepsNoNewline(rule.children[0].text);
    TrimPlain(rule.children[0].text);
    forall i | 0 <= i < |ds| ensures '\n' !in ds[i].text {
      assert ds[i] == rule.children[i + 1];
    }
    IndentedPlain(ds);
    FramedLines(t + " {", body, "}");
  }

  lemma ReadableSingleBlock(rule: Node)
    requires |rule.children| >= 1 && rule.children[0].rule == Selector && AllDeclarations(rule.children[1..])
    ensures ProcessRule(rule, true)
            == (Trim(rule.children[0].text) + " {") + "\n" + Unlines(Indented(TrimmedTexts(rule.children[1..]))) + "}" + "\n"
  {
    var t := Trim(rule.children[0].text);
    var d := DeclarationLines(true, rule.children[1..]);
    SingleSelectorBlock(rule, true);
    DeclarationLinesUnlines(rule.children[1..]);
    ReadableShape(t, d);
  }

  lemma ReadableShape(t: string, d: string)
    ensures t + Space(true) + "{" + Newline(true) + d + "}" + Newline(true) == (t + " {") + "\n" + d + "}" + "\n"
  {
    assert Space(true) == " " && Newline(true) == "\n";
    assert t + " " + "{" == t + " {";
  }

  lemma IndentedPlain(ds: seq<Node>)
    requires forall i :: 0 <= i < |ds| ==> '\n' !in ds[i].text
    ensures forall i :: 0 <= i < |ds| ==> PlainLine(Indented(TrimmedTexts(ds))[i])
  {
    var body := Indented(TrimmedTexts(ds));
    forall i | 0 <= i < |ds| ensures PlainLine(body[i]) {
      TrimKeepsNoNewline(ds[i].text);
      TrimPlain(ds[i].text);
    }
  }

  /** A header line, body lines and a closing line, each ended by a newline, read back. */
  lemma FramedLines(head: string, body: seq<string>, tail: string)
    requires PlainLine(head) && PlainLine(tail)
    requires forall i :: 0 <= i < |body| ==> PlainLine(body[i])
    ensures Lines(head + "\n" + Unlines(body) + tail + "\n") == [head] + body + [tail]
  {
    FramedUnlines(head, body, tail);
    FramedPlain(head, body, tail);
    LinesOfUnlines([head] + body + [tail]);
  }

  lemma FramedUnlines(head: string, body: seq<string>, tail: string)
    ensures Unlines([head] + body + [tail]) == head + "\n" + Unlines(body) + tail + "\n"
  {
    UnlinesAppend([head] + body, [tail]);
    UnlinesAppend([head], body);
    assert Unlines([head]) == head + "\n";
    assert Unlines([tail]) == tail + "\n";
  }

  lemma FramedPlain(head: string, body: seq<string>, tail: string)
    requires PlainLine(head) && PlainLine(tail)
    requires forall i :: 0 <= i < |body| ==> PlainLine(body[i])
    ensures forall i :: 0 <= i < |[head] + body + [tail]| ==> PlainLine(([head] + body + [tail])[i])
  {
    var all := [head] + body + [tail];
    forall i | 0 <= i < |all| ensures PlainLine(all[i]) {
      if i == 0 {
        assert all[i] == head;
      } else if i < |all| - 1 {
        assert all[i] == body[i - 1];
      } else {
        assert all[i] == tail;
      }
    }
  }

  /** A trimmed text does not end with a carriage return (it is white space). */
  lemma TrimPlain(s: string)
    requires '\n' !in Trim(s)
    ensures PlainLine(Trim(s)) && PlainLine("    " + Trim(s)) && PlainLine(Trim(s) + " {")
  {
    var t := Trim(s);
    assert t == [] || !IsWhitespace(t[|t| - 1]);
    assert '\n' !in "    " + t;
    assert '\n' !in t + " {";
  }

  /** The indented lines of several blocks are the indented lines of all of them together. */
  lemma {:induction false} IndentBlocksUnlines(blocks: seq<string>)
    ensures IndentBlocks(blocks) == Unlines(Indented(AllLines(blocks)))
  {
    if blocks != [] {
      IndentBlocksUnlines(blocks[1..]);
      IndentedAppend(Lines(blocks[0]), AllLines(blocks[1..]));
      UnlinesAppend(Indented(Lines(blocks[0])), Indented(AllLines(blocks[1..])));
    }
  }

  lemma IndentedAppend(a: seq<string>, b: seq<string>)
    ensures Indented(a + b) == Indented(a) + Indented(b)
  {
    var l := Indented(a + b);
    var r := Indented(a) + Indented(b);
    forall i | 0 <= i < |l| ensures l[i] == r[i] {
      if i < |a| {
        IndentedAppendLeft(a, b, i);
      } else {
        IndentedAppendRight(a, b, i);
      }
    }
  }

  lemma IndentedAppendLeft(a: seq<string>, b: seq<string>, i: nat)
    requires i < |a|
    ensures Indented(a + b)[i] == Indented(a)[i] == (Indented(a) + Indented(b))[i]
  {
    assert (a + b)[i] == a[i];
  }

  lemma IndentedAppendRight(a: seq<string>, b: seq<string>, i: nat)
    requires |a| <= i < |a| + |b|
    ensures Indented(a + b)[i] == Indented(b)[i - |a|] == (Indented(a) + Indented(b))[i]
  {
    var j := i - |a|;
    assert (a + b)[i] == b[j];
    var ia := Indented(a);
    assert |ia| == |a|;
    assert (ia + Indented(b))[i] == Indented(b)[j];
  }

  /**
   * Read back line by line, a human-readable media query is its header
   * line, every line of every inner block indented by four spaces, and `}`.
   */
  lemma MediaQueryLines(mq: Node)
    requires '\n' !in Condition(mq)
    requires forall i :: 0 <= i < |AllLines(InnerBlocks(mq, true, 0))| ==> PlainLine(AllLines(InnerBlocks(mq, true, 0))[i])
    ensures Lines(ProcessMediaQuery(mq, true))
            == ["@media " + Condition(mq) + "{"] + Indented(AllLines(InnerBlocks(mq, true, 0))) + ["}"]
  {
    var head := "@media " + Condition(mq) + "{";
    var inner := AllLines(InnerBlocks(mq, true, 0));
    var body := Indented(inner);
    HumanReadableMedia(mq);
    IndentBlocksUnlines(InnerBlocks(mq, true, 0));
    assert '\n' !in head;
    forall i | 0 <= i < |body| ensures PlainLine(body[i]) {
      assert body[i] == "    " + inner[i];
      assert PlainLine(inner[i]);
    }
    FramedLines(head, body, "}");
  }

  lemma HumanReadableMedia(mq: Node)
    ensures ProcessMediaQuery(mq, true)
            == "@media " + Condition(mq) + "{" + "\n" + IndentBlocks(InnerBlocks(mq, true, 0)) + "}" + "\n"
  {
    var c := Condition(mq);
    var body := IndentBlocks(InnerBlocks(mq, true, 0));
    assert ProcessMediaQuery(mq, true) == MediaBlock(true, c, InnerBlocks(mq, true, 0));
    ReadableMediaBlock(c, InnerBlocks(mq, true, 0));
  }

  lemma ReadableMediaBlock(c: string, blocks: seq<string>)
    ensures MediaBlock(true, c, blocks) == "@media " + c + "{" + "\n" + IndentBlocks(blocks) + "}" + "\n"
  {
    var body := IndentBlocks(blocks);
    assert Space(true) == " " && Newline(true) == "\n";
    assert MediaBlock(true, c, blocks) == "@media" + " " + c + "{" + "\n" + body + "}" + "\n";
    assert "@media" + " " == "@media ";
  }

  // ---------------------------------------------------------------- compact output

  /** No text anywhere in the tree holds a newline. */
  ghost predicate NoNewlines(n: Node)
    decreases n
  {
    '\n' !in n.text && forall i :: 0 <= i < |n.children| ==> NoNewlines(n.children[i])
  }

  lemma {:induction false} CompactRunSingleLine(sep: string, st: RuleState, cs: seq<Node>)
    requires '\n' !in sep && '\n' !in st.previous && '\n' !in st.out
    requires forall i :: 0 <= i < |cs| ==> '\n' !in cs[i].text
    ensures '\n' !in RuleRun(false, sep, st, cs).previous && '\n' !in RuleRun(false, sep, st, cs).out
    decreases |cs|
  {
    if cs != [] {
      CompactStepSingleLine(sep, st, cs[0]);
      assert forall i :: 0 <= i < |cs| - 1 ==> cs[1..][i] == cs[i + 1];
      CompactRunSingleLine(sep, RuleStep(false, sep, st, cs[0]), cs[1..]);
    }
  }

  lemma CompactStepSingleLine(sep: string, st: RuleState, n: Node)
    requires '\n' !in sep && '\n' !in st.previous && '\n' !in st.out && '\n' !in n.text
    ensures '\n' !in RuleStep(false, sep, st, n).previous && '\n' !in RuleStep(false, sep, st, n).out
  {
    TrimKeepsNoNewline(n.text);
    if n.rule == Selector {
      var t := Trim(n.text);
      TrimKeepsNoNewline(st.previous);
      CompactHeaderSingleLine(st.previous, t);
    } else if n.rule == Declaration {
      assert DeclarationLine(false, n.text) == Trim(n.text);
    }
  }

  lemma CompactHeaderSingleLine(previous: string, t: string)
    requires '\n' !in Trim(previous) && '\n' !in t
    ensures '\n' !in SelectorHeader(false, previous, t)
  {
    assert Space(false) == [] && Newline(false) == [];
  }

  /** A compact rule is printed on one line when its texts are, as written and corrected. */
  lemma CompactRuleSingleLine(rule: Node)
    requires forall i :: 0 <= i < |rule.children| ==> '\n' !in rule.children[i].text
    ensures '\n' !in ProcessRuleAsWritten(rule, false)
    ensures '\n' !in ProcessRule(rule, false)
  {
    assert Space(false) == [] && Newline(false) == [];
    CompactRunSingleLine(Space(false), RuleState([], []), rule.children);
    CompactRunSingleLine(" ", RuleState([], []), rule.children);
  }

  /** A compact media query, nested queries included, is printed on one line when its texts are. */
  lemma {:induction false} CompactMediaSingleLine(mq: Node)
    requires NoNewlines(mq)
    ensures '\n' !in ProcessMediaQuery(mq, false)
    decreases mq, 1
  {
    CompactInnerSingleLine(mq, 0);
    LastTextFromChild(mq.children, MediaCondition);
    TrimKeepsNoNewline(LastText(mq.children, MediaCondition));
    CompactBlockSingleLine(Condition(mq), InnerBlocks(mq, false, 0));
  }

  lemma CompactBlockSingleLine(condition: string, blocks: seq<string>)
    requires '\n' !in condition && '\n' !in Concat(blocks)
    ensures '\n' !in MediaBlock(false, condition, blocks)
  {
    assert Space(false) == [] && Newline(false) == [];
  }

  lemma {:induction false} CompactInnerSingleLine(mq: Node, i: nat)
    requires NoNewlines(mq)
    ensures '\n' !in Concat(InnerBlocks(mq, false, i))
    decreases mq, 0, |mq.children| - i
  {
    if i < |mq.children| {
      var c := mq.children[i];
      assert NoNewlines(c);
      CompactInnerSingleLine(mq, i + 1);
      var first := if c.rule == RuleNormal then [ProcessRuleAsWritten(c, false)]
                   else if c.rule == MediaQuery then [ProcessMediaQuery(c, false)]
                   else [];
      if c.rule == RuleNormal {
        CompactRuleSingleLine(c);
      } else if c.rule == MediaQuery {
        CompactMediaSingleLine(c);
      }
      ConcatAppend(first, InnerBlocks(mq, false, i + 1));
    }
  }
}
