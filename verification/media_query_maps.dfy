/**
 * Media queries (src/process_x/media_queries.rs): the rules inside a media
 * query are run through the selector engine into one declaration map, which
 * is stored under `@media <condition>`.
 */
module MediaQueryMaps {
  import opened Wrappers
  import opened Text
  import opened Syntax
  import opened Metadata
  import opened SelectorEngine

  /** Declaration maps by `@media <condition>`. */
  type MediaMap = map<string, DeclMap>

  /** The condition key seen so far ("" before any) and the declarations collected. */
  datatype QueryState = QueryState(condition: string, decls: DeclMap)

  /** The key a `media_condition` child sets. */
  function ConditionKey(text: string): string {
    "@media " + Trim(text)
  }

  /**
   * The children of a media query, left to right: a condition replaces the
   * key, a `rule_normal` runs through the selector engine on the map so far,
   * anything else is skipped; the first error stops the walk.
   */
  function QueryRun(md: seq<MetaData>, st: QueryState, cs: seq<Node>, filePath: string): Outcome<QueryState>
    decreases |cs|
  {
    if cs == [] then Ok(st)
    else if cs[0].rule == MediaCondition then QueryRun(md, st.(condition := ConditionKey(cs[0].text)), cs[1..], filePath)
    else if cs[0].rule == RuleNormal then
      match ProcessRuleNormal(md, st.decls, cs[0], filePath)
      case Err(e) => Err(e)
      case Ok(d) => QueryRun(md, st.(decls := d), cs[1..], filePath)
    else QueryRun(md, st, cs[1..], filePath)
  }

  /**
   * `process_media_query`: the query's declaration map stored under its
   * condition key, replacing any earlier map with that key; every other map is kept.
   */
  function ProcessMediaQuery(mqs: MediaMap, mq: Node, md: seq<MetaData>, filePath: string): (r: Outcome<MediaMap>)
    ensures r.Err? <==> QueryRun(md, QueryState([], map[]), mq.children, filePath).Err?
    ensures r.Ok? ==> var st := QueryRun(md, QueryState([], map[]), mq.children, filePath).value;
                      st.condition in r.value && r.value[st.condition] == st.decls
                      && forall k :: k != st.condition ==> (k in r.value <==> k in mqs) && (k in mqs ==> r.value[k] == mqs[k])
    ensures r.Err? ==> r.error == QueryRun(md, QueryState([], map[]), mq.children, filePath).error
    ensures r.Err? ==> exists i, j :: CallInRule(mq.children, i, j)
                                     && r.error == UndeclaredFunction(mq.children[i].children[j], CalledName(mq.children[i].children[j]), filePath)
  {
    match QueryRun(md, QueryState([], map[]), mq.children, filePath)
    case Err(e) =>
      QueryRunFailsOnCall(md, QueryState([], map[]), mq.children, filePath);
      Err(e)
    case Ok(st) => Ok(mqs[st.condition := st.decls])
  }

  // ---------------------------------------------------------------- properties

  /** Child `j` of child `i` is a function call inside a `rule_normal` of the query. */
  predicate CallInRule(cs: seq<Node>, i: int, j: int) {
    0 <= i < |cs| && cs[i].rule == RuleNormal && 0 <= j < |cs[i].children| && cs[i].children[j].rule == UserCreatedFunctionCall
  }

  /** A query fails only at a call, inside one of its rules, to an undeclared function. */
  lemma {:induction false} QueryRunFailsOnCall(md: seq<MetaData>, st: QueryState, cs: seq<Node>, filePath: string)
    requires QueryRun(md, st, cs, filePath).Err?
    ensures exists i, j :: CallInRule(cs, i, j)
                           && QueryRun(md, st, cs, filePath).error == UndeclaredFunction(cs[i].children[j], CalledName(cs[i].children[j]), filePath)
    decreases |cs|
  {
    var e := QueryRun(md, st, cs, filePath).error;
    var tail := cs[1..];
    assert forall i :: 0 <= i < |tail| ==> tail[i] == cs[i + 1];
    if cs[0].rule == MediaCondition {
      QueryRunFailsOnCall(md, st.(condition := ConditionKey(cs[0].text)), tail, filePath);
      var i, j :| CallInRule(tail, i, j) && e == UndeclaredFunction(tail[i].children[j], CalledName(tail[i].children[j]), filePath);
      assert CallInRule(cs, i + 1, j);
    } else if cs[0].rule == RuleNormal {
      var r := ProcessRuleNormal(md, st.decls, cs[0], filePath);
      if r.Err? {
        var j :| 0 <= j < |cs[0].children| && cs[0].children[j].rule == UserCreatedFunctionCall
                 && r.error == UndeclaredFunction(cs[0].children[j], CalledName(cs[0].children[j]), filePath);
        assert CallInRule(cs, 0, j);
      } else {
        QueryRunFailsOnCall(md, st.(decls := r.value), tail, filePath);
        var i, j :| CallInRule(tail, i, j) && e == UndeclaredFunction(tail[i].children[j], CalledName(tail[i].children[j]), filePath);
        assert CallInRule(cs, i + 1, j);
      }
    } else {
      QueryRunFailsOnCall(md, st, tail, filePath);
      var i, j :| CallInRule(tail, i, j) && e == UndeclaredFunction(tail[i].children[j], CalledName(tail[i].children[j]), filePath);
      assert CallInRule(cs, i + 1, j);
    }
  }

  /** The rules alone, run one after another through the selector engine. */
  function RulesRun(md: seq<MetaData>, decls: DeclMap, rules: seq<Node>, filePath: string): Outcome<DeclMap>
    decreases |rules|
  {
    if rules == [] then Ok(decls)
    else match ProcessRuleNormal(md, decls, rules[0], filePath)
      case Err(e) => Err(e)
      case Ok(d) => RulesRun(md, d, rules[1..], filePath)
  }

  /**
   * The key is set by the last condition (trimmed, after "@media "), or
   * stays "" when there is none; the declarations are those of the rules
   * alone, wherever the conditions stand among them.
   */
  lemma {:induction false} QueryRunSplits(md: seq<MetaData>, st: QueryState, cs: seq<Node>, filePath: string)
    ensures QueryRun(md, st, cs, filePath).Ok? <==> RulesRun(md, st.decls, ChildrenTagged(cs, RuleNormal), filePath).Ok?
    ensures QueryRun(md, st, cs, filePath).Err? ==>
              QueryRun(md, st, cs, filePath).error == RulesRun(md, st.decls, ChildrenTagged(cs, RuleNormal), filePath).error
    ensures QueryRun(md, st, cs, filePath).Ok? ==>
              QueryRun(md, st, cs, filePath).value.decls == RulesRun(md, st.decls, ChildrenTagged(cs, RuleNormal), filePath).value
              && QueryRun(md, st, cs, filePath).value.condition
                 == if HasChild(cs, MediaCondition) then ConditionKey(LastText(cs, MediaCondition)) else st.condition
    decreases |cs|
  {
    if cs != [] {
      var tail := ChildrenTagged(cs[1..], RuleNormal);
      assert forall i :: 0 < i < |cs| ==> cs[i] == cs[1..][i - 1];
      LastTextOfTail(cs, MediaCondition);
      if cs[0].rule == MediaCondition {
        QueryRunSplits(md, st.(condition := ConditionKey(cs[0].text)), cs[1..], filePath);
        assert ChildrenTagged(cs, RuleNormal) == tail;
      } else if cs[0].rule == RuleNormal {
        assert ChildrenTagged(cs, RuleNormal) == [cs[0]] + tail;
        assert ([cs[0]] + tail)[1..] == tail;
        match ProcessRuleNormal(md, st.decls, cs[0], filePath) {
          case Err(e) =>
          case Ok(d) => QueryRunSplits(md, st.(decls := d), cs[1..], filePath);
        }
      } else {
        QueryRunSplits(md, st, cs[1..], filePath);
        assert ChildrenTagged(cs, RuleNormal) == tail;
      }
    }
  }

  /** A media query without conditions stores its rules under the empty key. */
  lemma NoConditionEmptyKey(mqs: MediaMap, mq: Node, md: seq<MetaData>, filePath: string)
    requires !HasChild(mq.children, MediaCondition)
    requires ProcessMediaQuery(mqs, mq, md, filePath).Ok?
    ensures [] in ProcessMediaQuery(mqs, mq, md, filePath).value
  {
    QueryRunSplits(md, QueryState([], map[]), mq.children, filePath);
  }
}
