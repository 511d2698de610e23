/**
 * Keyframes definitions (src/process_x/keyframes.rs): the declarations of
 * each keyframe selector block are resolved and collected per frame
 * selector, and the table is stored under `@keyframes <name>`.
 */
module KeyframeTables {
  import opened Wrappers
  import opened Text
  import opened Syntax
  import opened Metadata
  import opened Variables

  /** The frame selector in force (raw text, "" when none) and the table so far. */
  datatype FrameState = FrameState(current: string, frames: DeclMap)

  /** Keyframe tables by `@keyframes <name>`. */
  type KeyframesMap = map<string, DeclMap>

  /**
   * One child of a keyframe selector block: a selector sets the current
   * frame, a closing brace clears it, and a declaration is recorded under
   * the current frame, or dropped unresolved when there is none.
   */
  function BlockStep(md: seq<MetaData>, st: FrameState, n: Node, filePath: string): Outcome<FrameState> {
    match n.rule
    case KeyframeSelector => Ok(st.(current := n.text))
    case RightCurlyBrace => Ok(st.(current := []))
    case Declaration =>
      if st.current == [] then Ok(st)
      else Record(st, DeclLines(n, md, filePath))
    case _ => Ok(st)
  }

  /** The resolved lines appended under the current frame, or the resolution error. */
  function Record(st: FrameState, lines: Outcome<seq<string>>): Outcome<FrameState> {
    match lines
    case Err(e) => Err(e)
    case Ok(ls) => Ok(st.(frames := Extend(st.frames, st.current, ls)))
  }

  /** The children of one block, left to right; the first error stops the walk. */
  function BlockRun(md: seq<MetaData>, st: FrameState, cs: seq<Node>, filePath: string): Outcome<FrameState>
    decreases |cs|
  {
    if cs == [] then Ok(st)
    else
      var r := BlockStep(md, st, cs[0], filePath);
      if r.Err? then r else BlockRun(md, r.value, cs[1..], filePath)
  }

  /**
   * The children of the definition: every `keyframe_selector_block` is
   * walked in turn with the state threaded through, so a frame selector left
   * open at the end of one block still applies in the next.
   */
  function DefinitionRun(md: seq<MetaData>, st: FrameState, cs: seq<Node>, filePath: string): Outcome<FrameState>
    decreases |cs|
  {
    if cs == [] then Ok(st)
    else if cs[0].rule != KeyframeSelectorBlock then DefinitionRun(md, st, cs[1..], filePath)
    else
      var r := BlockRun(md, st, cs[0].children, filePath);
      if r.Err? then r else DefinitionRun(md, r.value, cs[1..], filePath)
  }

  /** The animation name: the raw text of the last `keyframes_name` child. */
  function AnimationName(def: Node): string {
    LastText(def.children, KeyframesName)
  }

  /**
   * `process_keyframes_definition`: the table of this definition stored
   * under "@keyframes " followed by the name, replacing any earlier table of
   * that name; every other table is kept.
   */
  function ProcessKeyframesDefinition(keyframes: KeyframesMap, def: Node, md: seq<MetaData>, filePath: string)
    : (r: Outcome<KeyframesMap>)
    ensures r.Err? <==> DefinitionRun(md, FrameState([], map[]), def.children, filePath).Err?
    ensures r.Ok? ==> "@keyframes " + AnimationName(def) in r.value
                      && r.value["@keyframes " + AnimationName(def)]
                         == DefinitionRun(md, FrameState([], map[]), def.children, filePath).value.frames
    ensures r.Ok? ==> forall k :: k != "@keyframes " + AnimationName(def) ==>
                        (k in r.value <==> k in keyframes) && (k in keyframes ==> r.value[k] == keyframes[k])
    ensures r.Err? ==> r.error == DefinitionRun(md, FrameState([], map[]), def.children, filePath).error
    ensures r.Err? ==> exists b, k :: DefinitionFailsAt(md, FrameState([], map[]), def.children, filePath, b, k)
                                     && r.error == DeclLines(def.children[b].children[k], md, filePath).error
  {
    match DefinitionRun(md, FrameState([], map[]), def.children, filePath)
    case Err(e) =>
      DefinitionRunFailure(md, FrameState([], map[]), def.children, filePath);
      Err(e)
    case Ok(st) => Ok(keyframes["@keyframes " + AnimationName(def) := st.frames])
  }

  // ---------------------------------------------------------------- properties

  /** No declaration is ever recorded under the empty frame selector. */
  ghost predicate NoEmptyFrame(st: FrameState) {
    [] !in st.frames
  }

  lemma BlockStepKeepsNoEmptyFrame(md: seq<MetaData>, st: FrameState, n: Node, filePath: string)
    requires NoEmptyFrame(st) && BlockStep(md, st, n, filePath).Ok?
    ensures NoEmptyFrame(BlockStep(md, st, n, filePath).value)
    ensures Grows(st.frames, BlockStep(md, st, n, filePath).value.frames)
  {
    if n.rule == Declaration && st.current != [] {
      ExtendGrows(st.frames, st.current, DeclLines(n, md, filePath).value);
    }
  }

  lemma {:induction false} BlockRunKeepsNoEmptyFrame(md: seq<MetaData>, st: FrameState, cs: seq<Node>, filePath: string)
    requires NoEmptyFrame(st) && BlockRun(md, st, cs, filePath).Ok?
    ensures NoEmptyFrame(BlockRun(md, st, cs, filePath).value)
    ensures Grows(st.frames, BlockRun(md, st, cs, filePath).value.frames)
    decreases |cs|
  {
    if cs != [] {
      var st' := BlockStep(md, st, cs[0], filePath).value;
      BlockStepKeepsNoEmptyFrame(md, st, cs[0], filePath);
      BlockRunKeepsNoEmptyFrame(md, st', cs[1..], filePath);
      GrowsTransitive(st.frames, st'.frames, BlockRun(md, st, cs, filePath).value.frames);
    }
  }

  /**
   * Walking a definition only appends lines and never creates a frame with
   * an empty selector: declarations outside any frame are dropped.
   */
  lemma {:induction false} DefinitionRunKeepsNoEmptyFrame(md: seq<MetaData>, st: FrameState, cs: seq<Node>, filePath: string)
    requires NoEmptyFrame(st) && DefinitionRun(md, st, cs, filePath).Ok?
    ensures NoEmptyFrame(DefinitionRun(md, st, cs, filePath).value)
    ensures Grows(st.frames, DefinitionRun(md, st, cs, filePath).value.frames)
    decreases |cs|
  {
    if cs != [] {
      if cs[0].rule != KeyframeSelectorBlock {
        DefinitionRunKeepsNoEmptyFrame(md, st, cs[1..], filePath);
      } else {
        var st' := BlockRun(md, st, cs[0].children, filePath).value;
        BlockRunKeepsNoEmptyFrame(md, st, cs[0].children, filePath);
        DefinitionRunKeepsNoEmptyFrame(md, st', cs[1..], filePath);
        GrowsTransitive(st.frames, st'.frames, DefinitionRun(md, st, cs, filePath).value.frames);
      }
    }
  }

  /** A stored table never has an entry for the empty frame selector. */
  lemma StoredTableHasNoEmptyFrame(keyframes: KeyframesMap, def: Node, md: seq<MetaData>, filePath: string)
    requires ProcessKeyframesDefinition(keyframes, def, md, filePath).Ok?
    ensures [] !in ProcessKeyframesDefinition(keyframes, def, md, filePath).value["@keyframes " + AnimationName(def)]
  {
    DefinitionRunKeepsNoEmptyFrame(md, FrameState([], map[]), def.children, filePath);
  }

  /**
   * Outside a frame a declaration is dropped without being resolved: even a
   * reference to an unknown variable raises no error there.
   */
  lemma DeclarationOutsideFrameDropped(md: seq<MetaData>, st: FrameState, n: Node, filePath: string)
    requires n.rule == Declaration && st.current == []
    ensures BlockStep(md, st, n, filePath) == Ok(st)
  {
  }

  /**
   * Inside a frame a declaration either fails with its resolution error or
   * appends its resolved lines at the end of that frame's list.
   */
  lemma DeclarationInsideFrame(md: seq<MetaData>, st: FrameState, n: Node, filePath: string)
    requires n.rule == Declaration && st.current != []
    ensures DeclLines(n, md, filePath).Err? ==> BlockStep(md, st, n, filePath) == Err(DeclLines(n, md, filePath).error)
    ensures DeclLines(n, md, filePath).Ok? ==>
              BlockStep(md, st, n, filePath).Ok?
              && BlockStep(md, st, n, filePath).value.current == st.current
              && BlockStep(md, st, n, filePath).value.frames[st.current]
                 == ListAt(st.frames, st.current) + DeclLines(n, md, filePath).value
  {
    if DeclLines(n, md, filePath).Ok? {
      var ls := DeclLines(n, md, filePath).value;
      var f := Extend(st.frames, st.current, ls);
      assert f[st.current] == f[st.current][..|ListAt(st.frames, st.current)|] + f[st.current][|ListAt(st.frames, st.current)|..];
    }
  }

  /**
   * Child `k` of a block is a declaration reached, after the children before
   * it went through, while a frame is current, and its references do not resolve.
   */
  predicate FailsInFrameAt(md: seq<MetaData>, st: FrameState, cs: seq<Node>, filePath: string, k: int) {
    0 <= k < |cs| && cs[k].rule == Declaration && DeclLines(cs[k], md, filePath).Err?
    && BlockRun(md, st, cs[..k], filePath).Ok? && BlockRun(md, st, cs[..k], filePath).value.current != []
  }

  /** A block's walk fails only at an unresolved declaration inside a frame, with its error. */
  lemma {:induction false} BlockRunFailure(md: seq<MetaData>, st: FrameState, cs: seq<Node>, filePath: string)
    requires BlockRun(md, st, cs, filePath).Err?
    ensures exists k :: FailsInFrameAt(md, st, cs, filePath, k)
                        && BlockRun(md, st, cs, filePath).error == DeclLines(cs[k], md, filePath).error
    decreases |cs|
  {
    var r := BlockStep(md, st, cs[0], filePath);
    if r.Err? {
      assert cs[..0] == [];
      assert FailsInFrameAt(md, st, cs, filePath, 0);
    } else {
      var tail := cs[1..];
      BlockRunFailure(md, r.value, tail, filePath);
      var k :| FailsInFrameAt(md, r.value, tail, filePath, k)
               && BlockRun(md, r.value, tail, filePath).error == DeclLines(tail[k], md, filePath).error;
      FailsInFrameShift(md, st, cs, filePath, k);
    }
  }

  /** A failure point after a first child that goes through is one place further on. */
  lemma FailsInFrameShift(md: seq<MetaData>, st: FrameState, cs: seq<Node>, filePath: string, k: nat)
    requires cs != [] && BlockStep(md, st, cs[0], filePath).Ok?
    requires FailsInFrameAt(md, BlockStep(md, st, cs[0], filePath).value, cs[1..], filePath, k)
    ensures FailsInFrameAt(md, st, cs, filePath, k + 1) && cs[k + 1] == cs[1..][k]
  {
    var prefix := cs[..k + 1];
    assert prefix[0] == cs[0] && prefix[1..] == cs[1..][..k];
  }

  /**
   * Child `k` of block `b` is where the definition's walk fails: the
   * children before block `b` went through and then the block fails there.
   */
  predicate DefinitionFailsAt(md: seq<MetaData>, st: FrameState, cs: seq<Node>, filePath: string, b: int, k: int) {
    0 <= b < |cs| && cs[b].rule == KeyframeSelectorBlock && DefinitionRun(md, st, cs[..b], filePath).Ok?
    && FailsInFrameAt(md, DefinitionRun(md, st, cs[..b], filePath).value, cs[b].children, filePath, k)
  }

  /** A definition fails only at an unresolved declaration inside a frame, with its `VariableError`. */
  lemma {:induction false} DefinitionRunFailure(md: seq<MetaData>, st: FrameState, cs: seq<Node>, filePath: string)
    requires DefinitionRun(md, st, cs, filePath).Err?
    ensures exists b, k :: DefinitionFailsAt(md, st, cs, filePath, b, k)
                           && DefinitionRun(md, st, cs, filePath).error == DeclLines(cs[b].children[k], md, filePath).error
    decreases |cs|
  {
    var tail := cs[1..];
    var next := if cs[0].rule != KeyframeSelectorBlock then Ok(st) else BlockRun(md, st, cs[0].children, filePath);
    if next.Err? {
      BlockRunFailure(md, st, cs[0].children, filePath);
      var k :| FailsInFrameAt(md, st, cs[0].children, filePath, k)
               && next.error == DeclLines(cs[0].children[k], md, filePath).error;
      assert cs[..0] == [];
      assert DefinitionFailsAt(md, st, cs, filePath, 0, k);
    } else {
      DefinitionRunFailure(md, next.value, tail, filePath);
      var b, k :| DefinitionFailsAt(md, next.value, tail, filePath, b, k)
                  && DefinitionRun(md, next.value, tail, filePath).error == DeclLines(tail[b].children[k], md, filePath).error;
      DefinitionFailsShift(md, st, cs, filePath, next.value, b, k);
    }
  }

  /** A failure point after a first child that goes through is one block further on. */
  lemma DefinitionFailsShift(md: seq<MetaData>, st: FrameState, cs: seq<Node>, filePath: string, next: FrameState, b: nat, k: nat)
    requires cs != []
    requires cs[0].rule == KeyframeSelectorBlock ==> BlockRun(md, st, cs[0].children, filePath).Ok?
    requires next == if cs[0].rule != KeyframeSelectorBlock then st else BlockRun(md, st, cs[0].children, filePath).value
    requires DefinitionFailsAt(md, next, cs[1..], filePath, b, k)
    ensures DefinitionFailsAt(md, st, cs, filePath, b + 1, k) && cs[b + 1] == cs[1..][b]
  {
    var prefix := cs[..b + 1];
    assert prefix[0] == cs[0] && prefix[1..] == cs[1..][..b];
    assert DefinitionRun(md, st, prefix, filePath) == DefinitionRun(md, next, cs[1..][..b], filePath);
  }

  /** A closing brace ends the frame: later declarations of the block are dropped until the next selector. */
  lemma CloseBraceEndsFrame(md: seq<MetaData>, st: FrameState, n: Node, filePath: string)
    requires n.rule == RightCurlyBrace
    ensures BlockStep(md, st, n, filePath) == Ok(FrameState([], st.frames))
  {
  }

  /** A block that does not close its frame hands it on to the next block. */
  lemma {:induction false} FrameCarriesOver(md: seq<MetaData>, st: FrameState, b1: Node, b2: Node, filePath: string)
    requires b1.rule == KeyframeSelectorBlock && b2.rule == KeyframeSelectorBlock
    requires BlockRun(md, st, b1.children, filePath).Ok?
    ensures DefinitionRun(md, st, [b1, b2], filePath)
            == BlockRun(md, BlockRun(md, st, b1.children, filePath).value, b2.children, filePath)
  {
    var mid := BlockRun(md, st, b1.children, filePath).value;
    assert [b1, b2][1..] == [b2];
    assert [b2][1..] == [];
    var r2 := BlockRun(md, mid, b2.children, filePath);
    assert DefinitionRun(md, mid, [b2], filePath) == (if r2.Err? then r2 else DefinitionRun(md, r2.value, [], filePath));
  }
}
