/**
 * String-literal variables of the older emitter (`process_variable`, found
 * identically in src/rcss/compiler.rs and src/rcss/process_x/variable.rs):
 * a name and a quoted literal become a name/value pair.
 */
module VariableEmitter {
  import opened Wrappers
  import opened Syntax

  /** A literal of two or more characters loses its first and last one; a shorter one is kept. */
  function StripQuotes(raw: string): (r: string)
    ensures |raw| >= 2 ==> |r| == |raw| - 2 && [raw[0]] + r + [raw[|raw| - 1]] == raw
    ensures |raw| < 2 ==> r == raw
  {
    if |raw| >= 2 then raw[1..|raw| - 1] else raw
  }

  /**
   * `process_variable`: the last `variable_name` child and the last
   * `string_literal` child, unquoted; a pair only when both are non-empty.
   */
  function ProcessVariable(v: Node): (r: Option<(string, string)>)
    ensures r.Some? <==> LastText(v.children, VariableName) != [] && StripQuotes(LastText(v.children, StringLiteral)) != []
    ensures r.Some? ==> r.value == (LastText(v.children, VariableName), StripQuotes(LastText(v.children, StringLiteral)))
  {
    var name := LastText(v.children, VariableName);
    var value := StripQuotes(LastText(v.children, StringLiteral));
    if name != [] && value != [] then Some((name, value)) else None
  }

  // ---------------------------------------------------------------- properties

  /** Quoting a non-empty value and extracting it gives the value back. */
  lemma QuotedRoundTrip(name: string, value: string, q: char, line: nat)
    requires name != [] && value != []
    ensures ProcessVariable(Node(OtherRule, "", [Node(VariableName, name, [], line, 1),
                                                 Node(StringLiteral, [q] + value + [q], [], line, 1)], line, 1))
            == Some((name, value))
  {
    var cs := [Node(VariableName, name, [], line, 1), Node(StringLiteral, [q] + value + [q], [], line, 1)];
    LastMatchWins(cs, VariableName, [], 0);
    LastMatchWins(cs, StringLiteral, [], 1);
    var raw := [q] + value + [q];
    assert raw[1..|raw| - 1] == value;
  }

  /** An empty quoted literal, or none at all, gives no variable. */
  lemma EmptyValueNone(v: Node)
    requires |LastText(v.children, StringLiteral)| <= 2
    requires |LastText(v.children, StringLiteral)| != 1
    ensures ProcessVariable(v).None?
  {
  }

  /** A one-character literal is taken as it stands. */
  lemma ShortLiteralKept(v: Node)
    requires |LastText(v.children, StringLiteral)| == 1 && LastText(v.children, VariableName) != []
    ensures ProcessVariable(v) == Some((LastText(v.children, VariableName), LastText(v.children, StringLiteral)))
  {
  }
}
