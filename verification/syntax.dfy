/**
 * The parse tree handed over by the grammar front end: every node carries
 * its grammar rule, the raw source text it spans, its children in source
 * order and the 1-based line and column where it starts.
 */
module Syntax {
  import Text

  /** The grammar rules the processors dispatch on. */
  datatype Rule =
    | Selector
    | RightCurlyBrace
    | Declaration
    | VariableReference
    | UserCreatedFunctionCall
    | FunctionName
    | FunctionBlock
    | ParameterList
    | KeyframesName
    | KeyframeSelectorBlock
    | KeyframeSelector
    | Identifier
    | MediaCondition
    | RuleNormal
    | MediaQuery
    | RuleComment
    | VariableName
    | StringLiteral
    | ImportPath
    | OtherRule

  datatype Node = Node(rule: Rule, text: string, children: seq<Node>, line: nat, column: nat)

  /** Index `i` holds the last child tagged `tag`. */
  predicate IsLastOf(children: seq<Node>, tag: Rule, i: int) {
    0 <= i < |children| && children[i].rule == tag
    && forall j :: i < j < |children| ==> children[j].rule != tag
  }

  predicate HasChild(children: seq<Node>, tag: Rule) {
    exists i :: 0 <= i < |children| && children[i].rule == tag
  }

  /**
   * The text of the last child tagged `tag`, or the empty string when there
   * is none: a loop over the children that overwrites a variable on every match.
   */
  function LastText(children: seq<Node>, tag: Rule): string {
    LastTextAfter(children, tag, [])
  }

  /** The loop above, started with `acc` in the variable. */
  function LastTextAfter(cs: seq<Node>, tag: Rule, acc: string): string {
    if cs == [] then acc
    else LastTextAfter(cs[1..], tag, if cs[0].rule == tag then cs[0].text else acc)
  }

  /** Without a match the variable keeps its start value. */
  lemma {:induction false} NoMatchKeepsStart(cs: seq<Node>, tag: Rule, acc: string)
    requires !HasChild(cs, tag)
    ensures LastTextAfter(cs, tag, acc) == acc
  {
    if cs != [] {
      assert cs[0].rule != tag;
      assert forall i :: 0 <= i < |cs[1..]| ==> cs[1..][i] == cs[i + 1];
      NoMatchKeepsStart(cs[1..], tag, acc);
    }
  }

  /** With a match the variable ends on the text of the last one. */
  lemma {:induction false} LastMatchWins(cs: seq<Node>, tag: Rule, acc: string, i: int)
    requires IsLastOf(cs, tag, i)
    ensures LastTextAfter(cs, tag, acc) == cs[i].text
  {
    var acc' := if cs[0].rule == tag then cs[0].text else acc;
    if i == 0 {
      assert forall k :: 0 <= k < |cs[1..]| ==> cs[1..][k] == cs[k + 1];
      NoMatchKeepsStart(cs[1..], tag, acc');
    } else {
      assert forall k :: 0 <= k < |cs[1..]| ==> cs[1..][k] == cs[k + 1];
      assert IsLastOf(cs[1..], tag, i - 1);
      LastMatchWins(cs[1..], tag, acc', i - 1);
    }
  }

  /** Once a match is ahead, the start value no longer matters. */
  lemma {:induction false} LastTextAfterStart(cs: seq<Node>, tag: Rule, a: string, b: string)
    requires HasChild(cs, tag)
    ensures LastTextAfter(cs, tag, a) == LastTextAfter(cs, tag, b)
  {
    var i :| 0 <= i < |cs| && cs[i].rule == tag;
    var j := LastIndexOf(cs, tag, i);
    LastMatchWins(cs, tag, a, j);
    LastMatchWins(cs, tag, b, j);
  }

  /** The index of the last child tagged `tag`, given that index `i` has that tag. */
  function LastIndexOf(cs: seq<Node>, tag: Rule, i: nat): (j: nat)
    requires i < |cs| && cs[i].rule == tag
    ensures IsLastOf(cs, tag, j) && i <= j
    decreases |cs| - i
  {
    if forall k :: i < k < |cs| ==> cs[k].rule != tag then i
    else
      var k :| i < k < |cs| && cs[k].rule == tag;
      LastIndexOf(cs, tag, k)
  }

  /** The last match of a non-empty list is in its tail, or it is the head. */
  lemma LastTextOfTail(cs: seq<Node>, tag: Rule)
    requires cs != []
    ensures HasChild(cs, tag) <==> (cs[0].rule == tag || HasChild(cs[1..], tag))
    ensures LastText(cs, tag)
            == if HasChild(cs[1..], tag) then LastText(cs[1..], tag) else if cs[0].rule == tag then cs[0].text else []
  {
    assert forall i :: 0 < i < |cs| ==> cs[i] == cs[1..][i - 1];
    assert HasChild(cs[1..], tag) ==> HasChild(cs, tag) by {
      if HasChild(cs[1..], tag) {
        var i :| 0 <= i < |cs[1..]| && cs[1..][i].rule == tag;
        assert cs[i + 1].rule == tag;
      }
    }
    var acc := if cs[0].rule == tag then cs[0].text else [];
    if HasChild(cs[1..], tag) {
      LastTextAfterStart(cs[1..], tag, acc, []);
    } else {
      NoMatchKeepsStart(cs[1..], tag, acc);
    }
  }

  /** The last text is the text of one of the children, or empty. */
  lemma LastTextFromChild(cs: seq<Node>, tag: Rule)
    ensures LastText(cs, tag) == [] || exists i :: 0 <= i < |cs| && cs[i].rule == tag && LastText(cs, tag) == cs[i].text
  {
    if HasChild(cs, tag) {
      var i :| 0 <= i < |cs| && cs[i].rule == tag;
      var j := LastIndexOf(cs, tag, i);
      LastMatchWins(cs, tag, [], j);
    } else {
      NoMatchKeepsStart(cs, tag, []);
    }
  }

  /** The children tagged `tag`, in source order. */
  function ChildrenTagged(children: seq<Node>, tag: Rule): (r: seq<Node>)
    ensures forall i :: 0 <= i < |r| ==> r[i].rule == tag && r[i] in children
    ensures forall i :: 0 <= i < |children| && children[i].rule == tag ==> children[i] in r
  {
    if children == [] then []
    else (if children[0].rule == tag then [children[0]] else []) + ChildrenTagged(children[1..], tag)
  }

  /** The trimmed text of every node, in order. */
  function TrimmedTexts(ns: seq<Node>): (r: seq<string>)
    ensures |r| == |ns| && forall i {:trigger r[i]} :: 0 <= i < |ns| ==> r[i] == Text.Trim(ns[i].text)
  {
    if ns == [] then [] else [Text.Trim(ns[0].text)] + TrimmedTexts(ns[1..])
  }
}
