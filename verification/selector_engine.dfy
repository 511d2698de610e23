/**
 * The selector-stack engine of `process_rule_normal`
 * (src/process_x/rule_normal.rs): a rule's children are consumed in order,
 * selectors push frames, closing braces pop them, declarations and function
 * calls add lines under the key formed by the current stack.
 */
module SelectorEngine {
  import opened Wrappers
  import opened Text
  import opened Syntax
  import opened Metadata
  import opened Variables

  datatype EngineState = EngineState(stack: seq<string>, decls: DeclMap)

  /**
   * The frame a selector pushes: the trimmed text, except that a pseudo
   * selector (`&:` or `&::`) loses its leading `&`s and the white space after them.
   */
  function Frame(text: string): string {
    var t := Trim(text);
    if !StartsWith(t, "&::") && !StartsWith(t, "&:") then t
    else Trim(TrimStartMatches(t, '&'))
  }

  /** `Vec::pop` guarded by `is_empty`: the empty stack stays empty. */
  function Pop(stack: seq<string>): (r: seq<string>)
    ensures stack == [] ==> r == []
    ensures stack != [] ==> r + [stack[|stack| - 1]] == stack
  {
    if stack == [] then [] else stack[..|stack| - 1]
  }

  /** The declaration-map key: the frames joined with single spaces, then trimmed. */
  function Key(stack: seq<string>): string {
    Trim(Join(stack, " "))
  }

  /**
   * Names referenced in a declaration's value, without `&` and trailing
   * `;`/`,`: only the text after the first `:` is scanned.
   */
  function ReferencedNames(text: string): (r: seq<string>)
    ensures ':' !in text ==> r == []
  {
    match SplitOnce(text, ':')
    case None => []
    case Some((_, value)) => RefTokens(SplitWhitespace(value))
  }

  /** `token.starts_with("&")`. */
  predicate IsReference(token: string) {
    token != [] && token[0] == '&'
  }

  /** The name a token starting with `&` refers to: leading `&`s and trailing `;`/`,` removed. */
  function TokenName(token: string): string {
    TrimEndChars(TrimStartMatches(token, '&'), {';', ','})
  }

  /**
   * The names of the tokens that start with `&`, in order. A token with `&`
   * only inside it, such as `a&b`, is not a reference.
   */
  function RefTokens(tokens: seq<string>): (r: seq<string>)
    ensures |r| <= |tokens|
    ensures (forall i :: 0 <= i < |tokens| ==> '&' !in tokens[i]) ==> r == []
    ensures forall i :: 0 <= i < |r| ==>
              exists j :: 0 <= j < |tokens| && IsReference(tokens[j]) && r[i] == TokenName(tokens[j])
    ensures forall j :: 0 <= j < |tokens| && IsReference(tokens[j]) ==> TokenName(tokens[j]) in r
    decreases |tokens|
  {
    if tokens == [] then []
    else
      var t := tokens[0];
      var rest := RefTokens(tokens[1..]);
      assert forall j :: 0 < j < |tokens| ==> tokens[j] == tokens[1..][j - 1];
      (if IsReference(t) then [TokenName(t)] else []) + rest
  }

  /** A variable substitution: every `&name` becomes `value`. */
  datatype Replacement = Replacement(name: string, value: string)

  /**
   * The substitutions collected by walking the metadata in order: a
   * referenced name is taken from its first `Variables` entry and then
   * dropped from the wanted set, so it is substituted at most once.
   */
  function Replacements(md: seq<MetaData>, wanted: set<string>): seq<Replacement> {
    if md == [] then []
    else if md[0].Variables? && md[0].name in wanted then
      [Replacement(md[0].name, md[0].value)] + Replacements(md[1..], wanted - {md[0].name})
    else Replacements(md[1..], wanted)
  }

  /** No name is substituted twice. */
  ghost predicate NamesDistinct(r: seq<Replacement>) {
    forall i, j :: 0 <= i < j < |r| ==> r[i].name != r[j].name
  }

  /** Every substitution is for a wanted name, with the value of its first declaration. */
  ghost predicate FromFirstDeclarations(md: seq<MetaData>, wanted: set<string>, r: seq<Replacement>) {
    forall i :: 0 <= i < |r| ==> r[i].name in wanted && FirstValue(md, r[i].name) == Some(r[i].value)
  }

  /** Every wanted name that some `Variables` entry declares is substituted. */
  ghost predicate CoversDeclared(md: seq<MetaData>, wanted: set<string>, r: seq<Replacement>) {
    forall n :: n in wanted && FirstValue(md, n).Some? ==> exists i :: 0 <= i < |r| && r[i].name == n
  }

  /** The substitutions only name wanted names, each once. */
  lemma {:induction false} ReplacementsDistinct(md: seq<MetaData>, wanted: set<string>)
    ensures forall i :: 0 <= i < |Replacements(md, wanted)| ==> Replacements(md, wanted)[i].name in wanted
    ensures NamesDistinct(Replacements(md, wanted))
  {
    if md != [] {
      var m := md[0];
      if m.Variables? && m.name in wanted {
        ReplacementsDistinct(md[1..], wanted - {m.name});
      } else {
        ReplacementsDistinct(md[1..], wanted);
      }
    }
  }

  /** Each substitution carries the value of the first declaration of its name. */
  lemma {:induction false} ReplacementsFromFirst(md: seq<MetaData>, wanted: set<string>)
    ensures FromFirstDeclarations(md, wanted, Replacements(md, wanted))
  {
    if md != [] {
      var m := md[0];
      FirstValueStep(md);
      if m.Variables? && m.name in wanted {
        ReplacementsFromFirst(md[1..], wanted - {m.name});
      } else {
        ReplacementsFromFirst(md[1..], wanted);
      }
    }
  }

  /** No declared wanted name is missed. */
  lemma {:induction false} ReplacementsComplete(md: seq<MetaData>, wanted: set<string>)
    ensures CoversDeclared(md, wanted, Replacements(md, wanted))
  {
    if md != [] {
      var m := md[0];
      FirstValueStep(md);
      if m.Variables? && m.name in wanted {
        var rest := Replacements(md[1..], wanted - {m.name});
        ReplacementsComplete(md[1..], wanted - {m.name});
        var r := Replacements(md, wanted);
        assert r == [Replacement(m.name, m.value)] + rest;
        forall n | n in wanted && FirstValue(md, n).Some?
          ensures exists i :: 0 <= i < |r| && r[i].name == n
        {
          if n == m.name {
            assert r[0].name == n;
          } else {
            var i :| 0 <= i < |rest| && rest[i].name == n;
            assert r[i + 1].name == n;
          }
        }
      } else {
        ReplacementsComplete(md[1..], wanted);
      }
    }
  }

  /** How the lookup of every name relates to the lookup in the tail. */
  lemma FirstValueStep(md: seq<MetaData>)
    requires md != []
    ensures forall n :: FirstValue(md, n) == (if Declares(md[0], n) then Some(md[0].value) else FirstValue(md[1..], n))
  {
  }

  /** The substitutions applied one after another, each to the previous result. */
  function ApplyReplacements(text: string, reps: seq<Replacement>): string
    decreases |reps|
  {
    if reps == [] then text
    else ApplyReplacements(ReplaceAll(text, "&" + reps[0].name, reps[0].value), reps[1..])
  }

  /** The declaration text after multi-token variable substitution. */
  function ResolveTokens(text: string, md: seq<MetaData>): string {
    ApplyReplacements(text, Replacements(md, Wanted(text)))
  }

  /** The referenced names as a set: repeating a reference changes nothing. */
  function Wanted(text: string): (r: set<string>)
    ensures forall n :: n in r <==> n in ReferencedNames(text)
  {
    set n | n in ReferencedNames(text)
  }

  /** The body of the last `Function` entry named `name`, or the empty list. */
  function LastFunctionBody(md: seq<MetaData>, name: string): seq<string> {
    if md == [] then []
    else if md[|md| - 1].Function? && md[|md| - 1].name == name then md[|md| - 1].body
    else LastFunctionBody(md[..|md| - 1], name)
  }

  /** `md[i]` is the last `Function` entry named `name`. */
  predicate LastFunctionAt(md: seq<MetaData>, name: string, i: int) {
    0 <= i < |md| && md[i].Function? && md[i].name == name
    && forall j :: i < j < |md| ==> !(md[j].Function? && md[j].name == name)
  }

  /** Without a `Function` entry of that name the body is empty; otherwise it is the last one's. */
  lemma {:induction false} LastFunctionBodySpec(md: seq<MetaData>, name: string)
    ensures (forall i :: 0 <= i < |md| ==> !(md[i].Function? && md[i].name == name)) ==> LastFunctionBody(md, name) == []
    ensures forall i :: LastFunctionAt(md, name, i) ==> LastFunctionBody(md, name) == md[i].body
  {
    if md != [] {
      var n := |md| - 1;
      if !(md[n].Function? && md[n].name == name) {
        var pre := md[..n];
        LastFunctionBodySpec(pre, name);
        assert LastFunctionBody(md, name) == LastFunctionBody(pre, name);
        forall i | LastFunctionAt(md, name, i) ensures LastFunctionAt(pre, name, i) {
          assert pre[i] == md[i];
          forall j | i < j < n ensures !(pre[j].Function? && pre[j].name == name) {
            assert pre[j] == md[j];
          }
        }
        if forall i :: 0 <= i < |md| ==> !(md[i].Function? && md[i].name == name) {
          forall i | 0 <= i < n ensures !(pre[i].Function? && pre[i].name == name) {
            assert pre[i] == md[i];
          }
        }
      }
    }
  }

  function UndeclaredFunction(call: Node, name: string, filePath: string): RcssError {
    FunctionError(filePath, name, "Function not declared in scope", call.line, call.column)
  }

  /** The name a function call refers to: its last `function_name` child, trimmed. */
  function CalledName(call: Node): string {
    Trim(LastText(call.children, FunctionName))
  }

  /** A declaration, variables substituted, appended under the current key. */
  function Declare(md: seq<MetaData>, st: EngineState, decl: Node): EngineState {
    st.(decls := Extend(st.decls, Key(st.stack), [ResolveTokens(Trim(decl.text), md)]))
  }

  /** A function call: the function's body appended under the current key. */
  function Call(md: seq<MetaData>, st: EngineState, call: Node, filePath: string): Outcome<EngineState> {
    var body := LastFunctionBody(md, CalledName(call));
    if body == [] then Err(UndeclaredFunction(call, CalledName(call), filePath))
    else Ok(st.(decls := Extend(st.decls, Key(st.stack), body)))
  }

  /** One child of a `rule_normal` node. */
  function Step(md: seq<MetaData>, st: EngineState, n: Node, filePath: string): Outcome<EngineState> {
    match n.rule
    case Selector => Ok(st.(stack := st.stack + [Frame(n.text)]))
    case RightCurlyBrace => Ok(st.(stack := Pop(st.stack)))
    case Declaration => Ok(Declare(md, st, n))
    case UserCreatedFunctionCall => Call(md, st, n, filePath)
    case _ => Ok(st)
  }

  /** The children consumed left to right; the first error stops the walk. */
  function Run(md: seq<MetaData>, st: EngineState, cs: seq<Node>, filePath: string): Outcome<EngineState>
    decreases |cs|
  {
    if cs == [] then Ok(st)
    else
      var r := Step(md, st, cs[0], filePath);
      if r.Err? then r else Run(md, r.value, cs[1..], filePath)
  }

  /**
   * `process_rule_normal`: the declaration map after one rule, starting from
   * an empty stack. Lists are only ever appended to, and the only failure is
   * a call to a function that no metadata declares.
   */
  function ProcessRuleNormal(md: seq<MetaData>, decls: DeclMap, rule: Node, filePath: string): (r: Outcome<DeclMap>)
    ensures r.Ok? ==> Grows(decls, r.value)
    ensures r.Err? ==>
              exists i :: 0 <= i < |rule.children| && rule.children[i].rule == UserCreatedFunctionCall
                          && r.error == UndeclaredFunction(rule.children[i], CalledName(rule.children[i]), filePath)
    ensures (forall i :: 0 <= i < |rule.children| ==> rule.children[i].rule != UserCreatedFunctionCall) ==> r.Ok?
  {
    var st := EngineState([], decls);
    match Run(md, st, rule.children, filePath)
    case Err(e) =>
      RunFailsOnCall(md, st, rule.children, filePath);
      Err(e)
    case Ok(after) =>
      RunGrows(md, st, rule.children, filePath);
      Ok(after.decls)
  }

  // ---------------------------------------------------------------- properties

  /**
   * One step touches at most the current key, only by appending to it, and
   * only a function call can fail.
   */
  lemma StepFrame(md: seq<MetaData>, st: EngineState, n: Node, filePath: string)
    ensures var r := Step(md, st, n, filePath);
            && (r.Err? ==> n.rule == UserCreatedFunctionCall)
            && (r.Ok? ==> Grows(st.decls, r.value.decls))
            && (r.Ok? ==> forall k :: k != Key(st.stack) ==> (k in r.value.decls <==> k in st.decls))
            && (r.Ok? ==> forall k :: k in st.decls && k != Key(st.stack) ==> r.value.decls[k] == st.decls[k])
  {
    var key := Key(st.stack);
    match n.rule
    case Declaration => ExtendGrows(st.decls, key, [ResolveTokens(Trim(n.text), md)]);
    case UserCreatedFunctionCall => ExtendGrows(st.decls, key, LastFunctionBody(md, CalledName(n)));
    case _ =>
  }

  /** A closing brace on an empty stack changes nothing; otherwise it removes the top frame. */
  lemma CloseBrace(md: seq<MetaData>, st: EngineState, n: Node, filePath: string)
    requires n.rule == RightCurlyBrace
    ensures st.stack == [] ==> Step(md, st, n, filePath) == Ok(st)
    ensures st.stack != [] ==> Step(md, st, n, filePath) == Ok(st.(stack := st.stack[..|st.stack| - 1]))
  {
  }

  /** A pseudo selector's frame starts with the `:` that followed the `&`. */
  lemma PseudoFrame(text: string)
    requires StartsWith(Trim(text), "&:")
    ensures |Frame(text)| > 0 && Frame(text)[0] == ':'
  {
    var t := Trim(text);
    var u := TrimStartMatches(t, '&');
    assert Frame(text) == Trim(u);
    AmpersandsThenColon(t, u);
    ColonNotWhitespace(u);
    TrimKeepsFirst(u);
  }

  /** Stripping the `&`s of `&:…` leaves text that starts with `:`. */
  lemma AmpersandsThenColon(t: string, u: string)
    requires StartsWith(t, "&:") && u == TrimStartMatches(t, '&')
    ensures |u| > 0 && u[0] == ':'
  {
    var p := t[..2];
    assert p[0] == '&' && p[1] == ':';
    assert t == "&" + t[1..] && t[1..][0] == p[1];
    OneAmpersand(t[1..]);
  }

  lemma ColonNotWhitespace(u: string)
    requires |u| > 0 && u[0] == ':'
    ensures !IsWhitespace(u[0])
  {
  }

  /** Trimming keeps a first character that is not white space. */
  lemma TrimKeepsFirst(u: string)
    requires |u| > 0 && !IsWhitespace(u[0])
    ensures |Trim(u)| > 0 && Trim(u)[0] == u[0]
  {
    assert TrimStart(u) == u;
    var e := TrimEnd(u);
    assert e == u[..|e|];
    assert !AllWhitespace(u[0..]);
  }

  /** A declaration is appended at the end of its key's list; nothing else changes. */
  lemma DeclarationAppends(md: seq<MetaData>, st: EngineState, n: Node, filePath: string)
    requires n.rule == Declaration
    ensures Step(md, st, n, filePath).Ok?
    ensures var r := Step(md, st, n, filePath).value;
            && Key(st.stack) in r.decls
            && r.decls[Key(st.stack)] == ListAt(st.decls, Key(st.stack)) + [ResolveTokens(Trim(n.text), md)]
            && r.stack == st.stack
  {
    var d := Declare(md, st, n).decls;
    var k := Key(st.stack);
    assert d[k] == d[k][..|ListAt(st.decls, k)|] + d[k][|ListAt(st.decls, k)|..];
  }

  /**
   * A call fails when the last `Function` entry of that name is missing or
   * has an empty body, with an error naming the function and the call's position.
   */
  lemma UndeclaredCallFails(md: seq<MetaData>, st: EngineState, n: Node, filePath: string)
    requires n.rule == UserCreatedFunctionCall && LastFunctionBody(md, CalledName(n)) == []
    ensures Step(md, st, n, filePath)
            == Err(FunctionError(filePath, CalledName(n), "Function not declared in scope", n.line, n.column))
  {
  }

  /** Otherwise the call succeeds and appends that body, in order, under the current key. */
  lemma DeclaredCallAppends(md: seq<MetaData>, st: EngineState, n: Node, filePath: string)
    requires n.rule == UserCreatedFunctionCall && LastFunctionBody(md, CalledName(n)) != []
    ensures Step(md, st, n, filePath).Ok?
    ensures Step(md, st, n, filePath).value.stack == st.stack
    ensures Step(md, st, n, filePath).value.decls[Key(st.stack)]
            == ListAt(st.decls, Key(st.stack)) + LastFunctionBody(md, CalledName(n))
  {
    var k := Key(st.stack);
    var d := Extend(st.decls, k, LastFunctionBody(md, CalledName(n)));
    assert d[k] == d[k][..|ListAt(st.decls, k)|] + d[k][|ListAt(st.decls, k)|..];
  }

  /** Walking a rule only ever adds lines at the end of lists; no key or line is lost. */
  lemma {:induction false} RunGrows(md: seq<MetaData>, st: EngineState, cs: seq<Node>, filePath: string)
    requires Run(md, st, cs, filePath).Ok?
    ensures Grows(st.decls, Run(md, st, cs, filePath).value.decls)
    decreases |cs|
  {
    if cs != [] {
      var st' := Step(md, st, cs[0], filePath).value;
      StepFrame(md, st, cs[0], filePath);
      RunGrows(md, st', cs[1..], filePath);
      GrowsTransitive(st.decls, st'.decls, Run(md, st, cs, filePath).value.decls);
    }
  }

  /** A walk fails only at a child that calls an undeclared function, with that call's error. */
  lemma {:induction false} RunFailsOnCall(md: seq<MetaData>, st: EngineState, cs: seq<Node>, filePath: string)
    requires Run(md, st, cs, filePath).Err?
    ensures exists i :: 0 <= i < |cs| && cs[i].rule == UserCreatedFunctionCall
                        && Run(md, st, cs, filePath).error == UndeclaredFunction(cs[i], CalledName(cs[i]), filePath)
    decreases |cs|
  {
    var r := Step(md, st, cs[0], filePath);
    StepFrame(md, st, cs[0], filePath);
    if r.Err? {
      assert Run(md, st, cs, filePath).error == UndeclaredFunction(cs[0], CalledName(cs[0]), filePath);
    } else {
      RunFailsOnCall(md, r.value, cs[1..], filePath);
      var i :| 0 <= i < |cs[1..]| && cs[1..][i].rule == UserCreatedFunctionCall
               && Run(md, r.value, cs[1..], filePath).error == UndeclaredFunction(cs[1..][i], CalledName(cs[1..][i]), filePath);
      assert cs[i + 1] == cs[1..][i];
    }
  }

  /** A rule without function calls cannot fail. */
  lemma {:induction false} RunWithoutCallsSucceeds(md: seq<MetaData>, st: EngineState, cs: seq<Node>, filePath: string)
    requires forall i :: 0 <= i < |cs| ==> cs[i].rule != UserCreatedFunctionCall
    ensures Run(md, st, cs, filePath).Ok?
    decreases |cs|
  {
    if cs != [] {
      StepFrame(md, st, cs[0], filePath);
      RunWithoutCallsSucceeds(md, Step(md, st, cs[0], filePath).value, cs[1..], filePath);
    }
  }

  /** The references of two runs of tokens are those of the first followed by those of the second. */
  lemma {:induction false} RefTokensAppend(a: seq<string>, b: seq<string>)
    ensures RefTokens(a + b) == RefTokens(a) + RefTokens(b)
    decreases |a|
  {
    if a != [] {
      assert (a + b)[0] == a[0];
      assert (a + b)[1..] == a[1..] + b;
      RefTokensAppend(a[1..], b);
    } else {
      assert a + b == b;
    }
  }

  /** `split_once` splits at the first occurrence of the character. */
  lemma {:induction false} SplitOnceAt(s: string, c: char, k: nat)
    requires k < |s| && s[k] == c && c !in s[..k]
    ensures SplitOnce(s, c) == Some((s[..k], s[k + 1..]))
    decreases k
  {
    if k > 0 {
      assert s[0] == s[..k][0];
      assert s[1..][k - 1] == s[k];
      assert s[1..][..k - 1] == s[1..k];
      assert forall x :: x in s[1..k] ==> x in s[..k];
      SplitOnceAt(s[1..], c, k - 1);
      assert [s[0]] + s[1..k] == s[..k];
    }
  }

  /** A declaration `property: value` whose property has no `:` scans exactly the value's words. */
  lemma ReferencesAfterColon(property: string, value: string)
    requires ':' !in property
    ensures ReferencedNames(property + ":" + value) == RefTokens(SplitWhitespace(value))
  {
    var text := property + ":" + value;
    assert text[..|property|] == property;
    assert text[|property| + 1..] == value;
    SplitOnceAt(text, ':', |property|);
  }

  /** A word without white space is its own first word. */
  lemma WholeWord(w: string)
    requires NoWhitespace(w)
    ensures Word(w) == w
  {
    var r := Word(w);
    if |r| < |w| {
      assert false;
    }
  }

  /** A word after one space splits into that word alone. */
  lemma SpacedWord(w: string)
    requires |w| > 0 && NoWhitespace(w)
    ensures SplitWhitespace(" " + w) == [w]
  {
    var s := " " + w;
    assert s[1..] == w;
    assert SplitWhitespace(s) == SplitWhitespace(w);
    WholeWord(w);
    assert w[|w|..] == [];
  }

  /** One leading `&` before text that does not start with `&` is all `trim_start_matches` removes. */
  lemma OneAmpersand(x: string)
    requires x != [] && x[0] != '&'
    ensures TrimStartMatches("&" + x, '&') == x
  {
    assert ("&" + x)[1..] == x;
  }

  /** One trailing `;` or `,` after text that does not end in one is all that is removed. */
  lemma OneTerminator(x: string, end: char)
    requires x != [] && x[|x| - 1] !in {';', ','} && end in {';', ','}
    ensures TrimEndChars(x + [end], {';', ','}) == x
  {
    assert (x + [end])[..|x|] == x;
  }

  /** `&name;` and `&name,` name `name` when it neither starts with `&` nor ends in `;`/`,`. */
  lemma TokenNameStrips(name: string, end: char)
    requires name != [] && name[0] != '&' && name[|name| - 1] !in {';', ','} && end in {';', ','}
    ensures TokenName("&" + name + [end]) == name
  {
    assert "&" + name + [end] == "&" + (name + [end]);
    assert (name + [end])[0] == name[0];
    OneAmpersand(name + [end]);
    OneTerminator(name, end);
  }

  /** A single token starting with `&` references its name. */
  lemma SingleRefToken(t: string)
    requires IsReference(t)
    ensures RefTokens([t]) == [TokenName(t)]
  {
    assert [t][1..] == [];
  }

  /**
   * A declaration `property: &name;` references exactly `name`, when the
   * property has no `:` and the name is one word that neither starts with
   * `&` nor ends in `;` or `,`.
   */
  lemma SimpleReference(property: string, name: string)
    requires ':' !in property
    requires name != [] && NoWhitespace(name) && name[0] != '&' && name[|name| - 1] !in {';', ','}
    ensures ReferencedNames(property + ": &" + name + ";") == [name]
  {
    var token := "&" + name + ";";
    assert property + ": &" + name + ";" == property + ":" + (" " + token);
    assert forall i :: 1 <= i <= |name| ==> token[i] == name[i - 1];
    assert NoWhitespace(token);
    ReferencesAfterColon(property, " " + token);
    SpacedWord(token);
    SingleRefToken(token);
    TokenNameStrips(name, ';');
  }

  /** `a: &b;` references `b`: the `&` and the `;` are stripped. */
  lemma ReferenceExample()
    ensures ReferencedNames("a: &b;") == ["b"]
  {
    assert "a: &b;" == "a" + ": &" + "b" + ";";
    SimpleReference("a", "b");
  }

  /** Declarations with no `&` in them are stored verbatim (trimmed). */
  lemma {:induction false} NoReferenceUnchanged(text: string, md: seq<MetaData>)
    requires '&' !in text
    ensures ResolveTokens(text, md) == text
  {
    match SplitOnce(text, ':') {
      case None =>
      case Some((_, value)) =>
        assert forall c :: c in value ==> c in text;
        var tokens := SplitWhitespace(value);
        assert forall i :: 0 <= i < |tokens| ==> '&' !in tokens[i];
    }
    assert ReferencedNames(text) == [];
    assert Wanted(text) == {};
    ReplacementsNoneDeclared(md, {});
  }

  /** No wanted name is declared: nothing is substituted. */
  lemma {:induction false} ReplacementsNoneDeclared(md: seq<MetaData>, wanted: set<string>)
    requires forall n :: n in wanted ==> FirstValue(md, n).None?
    ensures Replacements(md, wanted) == []
  {
    if md != [] {
      FirstValueStep(md);
      ReplacementsNoneDeclared(md[1..], wanted);
    }
  }

  /** For a single wanted name there is one substitution, from its first declaration, or none. */
  lemma {:induction false} ReplacementsSingle(md: seq<MetaData>, name: string)
    ensures Replacements(md, {name}) == match FirstValue(md, name)
                                        case Some(v) => [Replacement(name, v)]
                                        case None => []
  {
    if md != [] {
      if md[0].Variables? && md[0].name == name {
        assert {name} - {name} == {};
        ReplacementsNoneDeclared(md[1..], {});
      } else {
        ReplacementsSingle(md[1..], name);
      }
    }
  }

  /** References to names no `Variables` entry declares are left in the text as written. */
  lemma UnknownReferencesKept(text: string, md: seq<MetaData>)
    requires forall n :: n in ReferencedNames(text) ==> FirstValue(md, n).None?
    ensures ResolveTokens(text, md) == text
  {
    ReplacementsNoneDeclared(md, Wanted(text));
  }

  /** A declaration referring to one declared name gets that name's first value substituted. */
  lemma SingleReference(text: string, md: seq<MetaData>, name: string, value: string)
    requires ReferencedNames(text) == [name] && FirstValue(md, name) == Some(value)
    ensures ResolveTokens(text, md) == ReplaceAll(text, "&" + name, value)
  {
    var wanted := Wanted(text);
    assert forall n :: n in wanted <==> n == name;
    assert wanted == {name};
    ReplacementsSingle(md, name);
    var reps := [Replacement(name, value)];
    assert Replacements(md, Wanted(text)) == reps;
    assert reps[1..] == [];
    assert ApplyReplacements(text, reps) == ApplyReplacements(ReplaceAll(text, "&" + name, value), []);
  }

  /**
   * `A { &:hover { color: red; } }` stores its declaration under the key
   * "A :hover": the pseudo frame is pushed as a frame of its own and the
   * frames are joined with a space.
   */
  lemma HoverExample()
    ensures ProcessRuleNormal([], map[], Node(RuleNormal, "", HoverChildren(), 1, 1), "f.rcss")
            == Ok(map["A :hover" := ["color: red;"]])
  {
    var cs := HoverChildren();
    var d := map["A :hover" := ["color: red;"]];
    HoverFirstSelector();
    HoverPseudoSelector();
    HoverDeclarationStep();
    HoverBraces();
    RunFirst([], EngineState([], map[]), cs, "f.rcss");
    RunFirst([], EngineState(["A"], map[]), cs[1..], "f.rcss");
    RunFirst([], EngineState(["A", ":hover"], map[]), cs[2..], "f.rcss");
    RunFirst([], EngineState(["A", ":hover"], d), cs[3..], "f.rcss");
    RunFirst([], EngineState(["A"], d), cs[4..], "f.rcss");
    assert cs[4..][1..] == [];
  }

  /** Running a non-empty list after a successful first step is running the rest. */
  lemma RunFirst(md: seq<MetaData>, st: EngineState, cs: seq<Node>, filePath: string)
    requires cs != [] && Step(md, st, cs[0], filePath).Ok?
    ensures Run(md, st, cs, filePath) == Run(md, Step(md, st, cs[0], filePath).value, cs[1..], filePath)
  {
  }

  lemma HoverDeclarationStep()
    ensures Step([], EngineState(["A", ":hover"], map[]), HoverChildren()[2], "f.rcss")
            == Ok(EngineState(["A", ":hover"], map["A :hover" := ["color: red;"]]))
  {
    var n := HoverChildren()[2];
    assert n.rule == Declaration;
    HoverDeclare();
  }

  lemma HoverFirstSelector()
    ensures Step([], EngineState([], map[]), HoverChildren()[0], "f.rcss") == Ok(EngineState(["A"], map[]))
  {
    var n := HoverChildren()[0];
    assert n.rule == Selector && n.text == "A";
    SelectorPushes([], EngineState([], map[]), n, "f.rcss");
    FrameOfPlain();
    assert [] + ["A"] == ["A"];
  }

  lemma HoverPseudoSelector()
    ensures Step([], EngineState(["A"], map[]), HoverChildren()[1], "f.rcss") == Ok(EngineState(["A", ":hover"], map[]))
  {
    var n := HoverChildren()[1];
    assert n.rule == Selector && n.text == "&:hover";
    SelectorPushes([], EngineState(["A"], map[]), n, "f.rcss");
    FrameOfPseudo();
    HoverStack();
  }

  lemma HoverStack()
    ensures ["A"] + [":hover"] == ["A", ":hover"]
  {
  }

  /** A selector pushes its frame and leaves the declarations alone. */
  lemma SelectorPushes(md: seq<MetaData>, st: EngineState, n: Node, filePath: string)
    requires n.rule == Selector
    ensures Step(md, st, n, filePath) == Ok(EngineState(st.stack + [Frame(n.text)], st.decls))
  {
  }

  lemma HoverDeclare()
    ensures Declare([], EngineState(["A", ":hover"], map[]), HoverChildren()[2])
            == EngineState(["A", ":hover"], map["A :hover" := ["color: red;"]])
  {
    HoverDeclaration();
  }

  lemma HoverBraces()
    ensures var d := map["A :hover" := ["color: red;"]];
            && Step([], EngineState(["A", ":hover"], d), HoverChildren()[3], "f.rcss") == Ok(EngineState(["A"], d))
            && Step([], EngineState(["A"], d), HoverChildren()[4], "f.rcss") == Ok(EngineState([], d))
  {
    assert ["A", ":hover"][..1] == ["A"];
    assert ["A"][..0] == [];
  }

  function HoverChildren(): seq<Node> {
    [Node(Selector, "A", [], 1, 1), Node(Selector, "&:hover", [], 1, 5),
     Node(Declaration, "color: red;", [], 1, 14), Node(RightCurlyBrace, "}", [], 1, 26),
     Node(RightCurlyBrace, "}", [], 1, 28)]
  }

  lemma FrameOfPlain()
    ensures Frame("A") == "A"
  {
    TrimOfTrimmed("A");
  }

  lemma AmpersandStripped()
    ensures TrimStartMatches("&:hover", '&') == ":hover"
  {
    assert "&:hover"[1..] == ":hover";
    assert ":hover"[0] != '&';
  }

  lemma FrameOfPseudo()
    ensures Frame("&:hover") == ":hover"
  {
    AmpersandStripped();
    PseudoPrefix();
    assert Trimmed("&:hover") && Trimmed(":hover");
    PseudoFrameOf("&:hover", ":hover");
  }

  /** A trimmed pseudo selector's frame is its text with the `&`s stripped, when that is trimmed. */
  lemma PseudoFrameOf(t: string, u: string)
    requires Trimmed(t) && StartsWith(t, "&:") && TrimStartMatches(t, '&') == u && Trimmed(u)
    ensures Frame(t) == u
  {
    TrimOfTrimmed(t);
    TrimOfTrimmed(u);
  }

  lemma PseudoPrefix()
    ensures StartsWith("&:hover", "&:")
  {
    assert "&:hover"[..2] == "&:";
  }

  lemma HoverDeclaration()
    ensures Key(["A", ":hover"]) == "A :hover"
    ensures ResolveTokens(Trim("color: red;"), []) == "color: red;"
    ensures Extend(map[], "A :hover", ["color: red;"]) == map["A :hover" := ["color: red;"]]
  {
    assert Join(["A", ":hover"], " ") == "A :hover";
    assert Trimmed("A :hover") && Trimmed("color: red;");
    KeyOfJoin(["A", ":hover"], "A :hover");
    NoMetadataUnchanged("color: red;");
    ExtendEmpty("A :hover", ["color: red;"]);
  }

  lemma KeyOfJoin(stack: seq<string>, j: string)
    requires Join(stack, " ") == j && Trimmed(j)
    ensures Key(stack) == j
  {
    TrimOfTrimmed(j);
  }

  /** Without metadata a trimmed declaration is stored as it stands. */
  lemma NoMetadataUnchanged(t: string)
    requires Trimmed(t)
    ensures ResolveTokens(Trim(t), []) == t
  {
    TrimOfTrimmed(t);
    ReplacementsNoneDeclared([], Wanted(t));
  }

  /** Extending the empty map creates the one list. */
  lemma ExtendEmpty(k: string, ds: seq<string>)
    ensures Extend(map[], k, ds) == map[k := ds]
  {
    assert ListAt(map[], k) == [];
    assert Extend(map[], k, ds)[k] == ds;
  }
}
