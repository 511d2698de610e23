/**
 * The keyframes printer of the text emitter (src/rcss/process_x/keyframes.rs
 * under src/rcss): the declarations of a `@keyframes` rule are grouped by
 * frame selector and printed with tab indentation.
 */
module KeyframesEmitter {
  import opened Wrappers
  import opened Text
  import opened Syntax
  import opened FrameOrder
  import Metadata

  /** Declarations by frame selector. */
  type Frames = map<string, seq<string>>

  /** The animation name (raw), the selector in force ("" before any) and the frames so far. */
  datatype Collected = Collected(name: string, current: string, frames: Frames)

  /** `entry(key).or_insert_with(Vec::new)`: the list under `key`, empty when there is none. */
  function Entries(frames: Frames, key: string): seq<string> {
    if key in frames then frames[key] else []
  }

  /**
   * One child of a `keyframe_selector_block`: a selector (trimmed) becomes
   * the current one and gets an entry; a declaration (trimmed) is appended
   * under the current selector, whatever it is. Nothing resets the current
   * selector, and other children are skipped.
   */
  function SelectorStep(st: Collected, n: Node): Collected {
    match n.rule
    case KeyframeSelector =>
      var t := Trim(n.text);
      st.(current := t, frames := st.frames[t := Entries(st.frames, t)])
    case Declaration =>
      st.(frames := st.frames[st.current := Entries(st.frames, st.current) + [Trim(n.text)]])
    case _ => st
  }

  function BlockRun(st: Collected, cs: seq<Node>): Collected
    decreases |cs|
  {
    if cs == [] then st else BlockRun(SelectorStep(st, cs[0]), cs[1..])
  }

  /** The children of the rule: the last `keyframes_name` wins, and every block is walked in turn. */
  function CollectRun(st: Collected, cs: seq<Node>): Collected
    decreases |cs|
  {
    if cs == [] then st
    else
      var c := cs[0];
      var st' := if c.rule == KeyframesName then st.(name := c.text)
                 else if c.rule == KeyframeSelectorBlock then BlockRun(st, c.children)
                 else st;
      CollectRun(st', cs[1..])
  }

  function Collect(def: Node): Collected {
    CollectRun(Collected([], [], map[]), def.children)
  }

  function ValueLines(values: seq<string>): string {
    if values == [] then [] else "\t\t" + values[0] + "\n" + ValueLines(values[1..])
  }

  /** One frame: its selector, one line per declaration, and the closing brace. */
  function FrameText(key: string, values: seq<string>): string {
    "\t" + key + " {\n" + ValueLines(values) + "\t}\n"
  }

  /** The frames in the order given; a missing key prints as an empty frame. */
  function FramesText(frames: Frames, order: seq<string>): string {
    if order == [] then [] else FrameText(order[0], Entries(frames, order[0])) + FramesText(frames, order[1..])
  }

  function Render(name: string, frames: Frames, order: seq<string>): string {
    "@keyframes " + name + " {\n" + FramesText(frames, order) + "}"
  }

  /** `order` lists every key of `frames` exactly once: one iteration order of the hash map. */
  predicate Enumerates(order: seq<string>, frames: Frames) {
    (forall k :: k in frames ==> k in order)
    && (forall i :: 0 <= i < |order| ==> order[i] in frames)
    && forall i, j :: 0 <= i < j < |order| ==> order[i] != order[j]
  }

  /**
   * `process_keyframes` as written: an error when the name is empty, else
   * the frames printed in the map's own iteration order `order`; the sorted
   * order is computed and then not used.
   */
  function ProcessKeyframesAsWritten(def: Node, order: seq<string>): (r: Result<string, string>)
    requires Enumerates(order, Collect(def).frames)
    ensures r.Err? <==> Collect(def).name == []
    ensures r.Err? ==> r.error == "Keyframes name is missing"
    ensures r.Ok? ==> r.value == Render(Collect(def).name, Collect(def).frames, order)
  {
    var c := Collect(def);
    if c.name == [] then Err("Keyframes name is missing") else Ok(Render(c.name, c.frames, order))
  }

  /** `process_keyframes` printing the frames in `sorted_keys` order. */
  function ProcessKeyframes(def: Node, order: seq<string>): (r: Result<string, string>)
    requires Enumerates(order, Collect(def).frames)
    ensures r.Err? <==> Collect(def).name == []
    ensures r.Err? ==> r.error == "Keyframes name is missing"
    ensures r.Ok? ==> r.value == Render(Collect(def).name, Collect(def).frames, SortedKeys(order))
  {
    var c := Collect(def);
    if c.name == [] then Err("Keyframes name is missing") else Ok(Render(c.name, c.frames, SortedKeys(order)))
  }

  // ---------------------------------------------------------------- collection

  /** Every key, every value and the current selector are trimmed. */
  ghost predicate AllTrimmed(st: Collected) {
    Trimmed(st.current)
    && forall k :: k in st.frames ==> Trimmed(k) && forall i :: 0 <= i < |st.frames[k]| ==> Trimmed(st.frames[k][i])
  }

  lemma SelectorStepKeeps(st: Collected, n: Node)
    requires AllTrimmed(st)
    ensures AllTrimmed(SelectorStep(st, n)) && Metadata.Grows(st.frames, SelectorStep(st, n).frames)
  {
    if n.rule == KeyframeSelector {
      var t := Trim(n.text);
      assert Trimmed(t);
    } else if n.rule == Declaration {
      var l := Entries(st.frames, st.current) + [Trim(n.text)];
      assert l[..|Entries(st.frames, st.current)|] == Entries(st.frames, st.current);
    }
  }

  lemma {:induction false} BlockRunKeeps(st: Collected, cs: seq<Node>)
    requires AllTrimmed(st)
    ensures AllTrimmed(BlockRun(st, cs)) && Metadata.Grows(st.frames, BlockRun(st, cs).frames)
    ensures BlockRun(st, cs).name == st.name
    decreases |cs|
  {
    if cs != [] {
      var st' := SelectorStep(st, cs[0]);
      SelectorStepKeeps(st, cs[0]);
      BlockRunKeeps(st', cs[1..]);
      Metadata.GrowsTransitive(st.frames, st'.frames, BlockRun(st, cs).frames);
    }
  }

  /**
   * Collecting only adds: keys stay and lists are only extended. Every
   * selector key and every declaration is stored trimmed.
   */
  lemma {:induction false} CollectRunKeeps(st: Collected, cs: seq<Node>)
    requires AllTrimmed(st)
    ensures AllTrimmed(CollectRun(st, cs)) && Metadata.Grows(st.frames, CollectRun(st, cs).frames)
    decreases |cs|
  {
    if cs != [] {
      var c := cs[0];
      var st' := if c.rule == KeyframesName then st.(name := c.text)
                 else if c.rule == KeyframeSelectorBlock then BlockRun(st, c.children)
                 else st;
      if c.rule == KeyframeSelectorBlock {
        BlockRunKeeps(st, c.children);
      }
      CollectRunKeeps(st', cs[1..]);
      Metadata.GrowsTransitive(st.frames, st'.frames, CollectRun(st, cs).frames);
    }
  }

  lemma CollectTrimmed(def: Node)
    ensures AllTrimmed(Collect(def))
  {
    CollectRunKeeps(Collected([], [], map[]), def.children);
  }

  /** A selector gets an entry even without declarations, and earlier entries stay. */
  lemma SelectorCreatesEntry(st: Collected, n: Node)
    requires n.rule == KeyframeSelector
    ensures SelectorStep(st, n).current == Trim(n.text)
    ensures Trim(n.text) in SelectorStep(st, n).frames
    ensures SelectorStep(st, n).frames[Trim(n.text)] == Entries(st.frames, Trim(n.text))
  {
  }

  /**
   * A declaration is stored under the current selector, which is the
   * empty selector before any selector has been seen.
   */
  lemma DeclarationUnderCurrent(st: Collected, n: Node)
    requires n.rule == Declaration
    ensures SelectorStep(st, n).frames[st.current] == Entries(st.frames, st.current) + [Trim(n.text)]
    ensures forall k :: k != st.current ==> (k in SelectorStep(st, n).frames <==> k in st.frames)
    ensures forall k :: k != st.current && k in st.frames ==> SelectorStep(st, n).frames[k] == st.frames[k]
  {
  }

  /** A closing brace changes nothing: the selector stays in force. */
  lemma BraceKeepsSelector(st: Collected, n: Node)
    requires n.rule == RightCurlyBrace
    ensures SelectorStep(st, n) == st
  {
  }

  // ---------------------------------------------------------------- output

  /** The lines of one frame: its header, its declarations indented by two tabs, and `}`. */
  function FrameLines(key: string, values: seq<string>): seq<string> {
    ["\t" + key + " {"] + TabbedValues(values) + ["\t}"]
  }

  /** Declarations indented by two tabs. */
  function TabbedValues(values: seq<string>): seq<string> {
    Prefixed("\t\t", values)
  }

  function AllFrameLines(frames: Frames, order: seq<string>): seq<string> {
    if order == [] then [] else FrameLines(order[0], Entries(frames, order[0])) + AllFrameLines(frames, order[1..])
  }

  lemma {:induction false} ValueLinesUnlines(values: seq<string>)
    ensures ValueLines(values) == Unlines(TabbedValues(values))
  {
    if values != [] {
      ValueLinesUnlines(values[1..]);
      assert TabbedValues(values)[1..] == TabbedValues(values[1..]);
    }
  }

  lemma FrameTextUnlines(key: string, values: seq<string>)
    ensures FrameText(key, values) == Unlines(FrameLines(key, values))
  {
    var tv := TabbedValues(values);
    ValueLinesUnlines(values);
    UnlinesAppend(["\t" + key + " {"] + tv, ["\t}"]);
    UnlinesAppend(["\t" + key + " {"], tv);
    assert Unlines(["\t" + key + " {"]) == "\t" + key + " {" + "\n";
    assert Unlines(["\t}"]) == "\t}" + "\n";
  }

  lemma {:induction false} FramesTextUnlines(frames: Frames, order: seq<string>)
    ensures FramesText(frames, order) == Unlines(AllFrameLines(frames, order))
  {
    if order != [] {
      FramesTextUnlines(frames, order[1..]);
      FrameTextUnlines(order[0], Entries(frames, order[0]));
      UnlinesAppend(FrameLines(order[0], Entries(frames, order[0])), AllFrameLines(frames, order[1..]));
    }
  }

  /** No newline in the name, the keys listed, or their declarations. */
  ghost predicate SingleLineTexts(name: string, frames: Frames, order: seq<string>) {
    '\n' !in name
    && forall i :: 0 <= i < |order| ==>
         '\n' !in order[i] && forall j :: 0 <= j < |Entries(frames, order[i])| ==> '\n' !in Entries(frames, order[i])[j]
  }

  /** The lines of one frame come back unchanged from `Lines`. */
  lemma FrameLinesPlain(key: string, values: seq<string>)
    requires '\n' !in key
    requires forall j :: 0 <= j < |values| ==> '\n' !in values[j] && Trimmed(values[j])
    ensures forall i :: 0 <= i < |FrameLines(key, values)| ==> PlainLine(FrameLines(key, values)[i])
  {
    var fl := FrameLines(key, values);
    var tv := TabbedValues(values);
    forall i | 0 <= i < |fl| ensures PlainLine(fl[i]) {
      if i == 0 {
        assert fl[i] == "\t" + key + " {";
      } else if i < |fl| - 1 {
        assert fl[i] == tv[i - 1] == "\t\t" + values[i - 1];
        TabbedPlain(values[i - 1]);
      } else {
        assert fl[i] == "\t}";
      }
    }
  }

  lemma TabbedPlain(v: string)
    requires '\n' !in v && Trimmed(v)
    ensures PlainLine("\t\t" + v)
  {
    var l := "\t\t" + v;
    assert '\n' !in l;
    if v != [] {
      assert l[|l| - 1] == v[|v| - 1];
    }
  }

  /** Newline-free keys and newline-free trimmed values give lines that read back unchanged. */
  lemma {:induction false} AllFrameLinesPlain(frames: Frames, order: seq<string>)
    requires forall i :: 0 <= i < |order| ==>
               '\n' !in order[i] && forall j :: 0 <= j < |Entries(frames, order[i])| ==> '\n' !in Entries(frames, order[i])[j]
    requires forall k :: k in frames ==> forall i :: 0 <= i < |frames[k]| ==> Trimmed(frames[k][i])
    ensures forall i :: 0 <= i < |AllFrameLines(frames, order)| ==> PlainLine(AllFrameLines(frames, order)[i])
  {
    if order != [] {
      AllFrameLinesPlain(frames, order[1..]);
      FrameLinesPlain(order[0], Entries(frames, order[0]));
      var fl := FrameLines(order[0], Entries(frames, order[0]));
      var rest := AllFrameLines(frames, order[1..]);
      assert AllFrameLines(frames, order) == fl + rest;
      assert forall i :: |fl| <= i < |fl + rest| ==> (fl + rest)[i] == rest[i - |fl|];
    }
  }

  /**
   * Read back line by line, the printed rule is its header, each frame's
   * lines in the given order, and the final `}` (which has no newline after it).
   */
  lemma RenderLines(name: string, frames: Frames, order: seq<string>)
    requires SingleLineTexts(name, frames, order)
    requires forall k :: k in frames ==> forall i :: 0 <= i < |frames[k]| ==> Trimmed(frames[k][i])
    ensures Lines(Render(name, frames, order)) == ["@keyframes " + name + " {"] + AllFrameLines(frames, order) + ["}"]
  {
    var all := ["@keyframes " + name + " {"] + AllFrameLines(frames, order);
    RenderUnlines(name, frames, order);
    RenderLinesPlain(name, frames, order);
    LinesOfUnlinesThen(all, "}");
    assert SplitOnce("}", '\n').None?;
  }

  lemma RenderUnlines(name: string, frames: Frames, order: seq<string>)
    ensures Render(name, frames, order) == Unlines(["@keyframes " + name + " {"] + AllFrameLines(frames, order)) + "}"
  {
    var head := "@keyframes " + name + " {";
    FramesTextUnlines(frames, order);
    UnlinesAppend([head], AllFrameLines(frames, order));
    assert Unlines([head]) == head + "\n";
  }

  lemma RenderLinesPlain(name: string, frames: Frames, order: seq<string>)
    requires SingleLineTexts(name, frames, order)
    requires forall k :: k in frames ==> forall i :: 0 <= i < |frames[k]| ==> Trimmed(frames[k][i])
    ensures var all := ["@keyframes " + name + " {"] + AllFrameLines(frames, order);
            forall i :: 0 <= i < |all| ==> PlainLine(all[i])
  {
    var head := "@keyframes " + name + " {";
    var body := AllFrameLines(frames, order);
    AllFrameLinesPlain(frames, order);
    assert '\n' !in head;
    var all := [head] + body;
    forall i | 0 <= i < |all| ensures PlainLine(all[i]) {
      if i > 0 {
        assert all[i] == body[i - 1];
      }
    }
  }

  // ---------------------------------------------------------------- frame order

  /** Every element of a duplicate-free sequence occurs in it exactly once. */
  lemma {:induction false} DistinctCount(a: seq<string>, x: string)
    requires forall i, j :: 0 <= i < j < |a| ==> a[i] != a[j]
    ensures multiset(a)[x] == if x in a then 1 else 0
  {
    if a != [] {
      DistinctCount(a[1..], x);
      assert a == [a[0]] + a[1..];
      assert a[0] !in a[1..];
    }
  }

  /** Two iteration orders of the same map list the same keys, each once. */
  lemma EnumerationsSameMultiset(o1: seq<string>, o2: seq<string>, frames: Frames)
    requires Enumerates(o1, frames) && Enumerates(o2, frames)
    ensures multiset(o1) == multiset(o2)
  {
    forall x ensures multiset(o1)[x] == multiset(o2)[x] {
      DistinctCount(o1, x);
      DistinctCount(o2, x);
    }
  }

  /** A repeated element occurs at least twice. */
  lemma RepeatCounted(b: seq<string>, i: nat, j: nat)
    requires i < j < |b| && b[i] == b[j]
    ensures multiset(b)[b[i]] >= 2
  {
    assert b == b[..j] + [b[j]] + b[j + 1..];
    assert b[..j][i] == b[i];
    assert multiset(b[..j])[b[i]] >= 1;
  }

  /** Sorting an iteration order gives another one: every frame is printed exactly once. */
  lemma SortedOrderEnumerates(order: seq<string>, frames: Frames)
    requires Enumerates(order, frames)
    ensures Enumerates(SortedKeys(order), frames)
  {
    var s := SortedKeys(order);
    SortByKeySpec(SortKey, order);
    assert multiset(s) == multiset(order);
    forall k | k in frames ensures k in s {
      assert k in multiset(order);
    }
    forall i | 0 <= i < |s| ensures s[i] in frames {
      assert s[i] in multiset(s);
    }
    forall i, j | 0 <= i < j < |s| ensures s[i] != s[j] {
      if s[i] == s[j] {
        RepeatCounted(s, i, j);
        DistinctCount(order, s[i]);
        assert false;
      }
    }
  }

  /**
   * Corrected, the printed rule does not depend on the hash map's iteration
   * order, as long as every selector is a percentage and no two selectors
   * share a number.
   */
  lemma CorrectedIgnoresEnumeration(def: Node, o1: seq<string>, o2: seq<string>)
    requires Enumerates(o1, Collect(def).frames) && Enumerates(o2, Collect(def).frames)
    requires AllPercent(o1) && DistinctSortKeys(o1)
    ensures ProcessKeyframes(def, o1) == ProcessKeyframes(def, o2)
  {
    EnumerationsSameMultiset(o1, o2, Collect(def).frames);
    SortedKeysIgnoreEnumeration(o1, o2);
  }

  /** `@keyframes fade` with the frames `0%` and `100%`, both empty. */
  function FadeDef(): Node {
    Node(OtherRule, "", [Node(KeyframesName, "fade", [], 1, 12),
                         Node(KeyframeSelectorBlock, "", [Node(KeyframeSelector, "0%", [], 2, 5),
                                                          Node(KeyframeSelector, "100%", [], 3, 5)], 2, 5)], 1, 1)
  }

  function FadeFrames(): Frames {
    map["0%" := [], "100%" := []]
  }

  lemma FadeCollected()
    ensures Collect(FadeDef()) == Collected("fade", "100%", FadeFrames())
  {
    var cs := FadeDef().children;
    var block := cs[1].children;
    TrimOfTrimmed("0%");
    TrimOfTrimmed("100%");
    var st1 := Collected("fade", [], map[]);
    var st2 := SelectorStep(st1, block[0]);
    assert st2 == Collected("fade", "0%", map["0%" := []]);
    var st3 := SelectorStep(st2, block[1]);
    assert st3 == Collected("fade", "100%", FadeFrames());
    assert block[1..][1..] == [];
    assert BlockRun(st1, block) == st3;
    assert cs[1..][1..] == [];
    assert CollectRun(Collected([], [], map[]), cs) == CollectRun(st1, cs[1..]);
  }

  lemma FadeSorted()
    ensures SortedKeys(["100%", "0%"]) == ["0%", "100%"]
  {
    FadeKeys();
    var o := ["100%", "0%"];
    assert o[..1] == ["100%"] && ["100%"][..0] == [];
    assert SortByKey(SortKey, ["100%"]) == Insert(SortKey, [], "100%") == ["100%"];
    assert SortByKey(SortKey, o) == Insert(SortKey, ["100%"], "0%");
    assert AllPercent(o) by {
      assert "100%"[|"100%"| - 1..] == "%" && "0%"[|"0%"| - 1..] == "%";
    }
  }

  lemma FadeKeys()
    ensures SortKey("0%") == 0 && SortKey("100%") == 100
  {
    PercentKey(0);
    PercentKey(100);
    assert DecimalString(0) == "0";
    assert DecimalString(10) == "10";
    assert DecimalString(100) == "100";
    assert DecimalString(0) + "%" == "0%";
    assert DecimalString(100) + "%" == "100%";
  }

  /**
   * Given the iteration order `100%`, `0%`, the rule is printed with the
   * `100%` frame first as written, and with the `0%` frame first corrected.
   */
  lemma FadeOrder()
    ensures Enumerates(["100%", "0%"], Collect(FadeDef()).frames)
    ensures ProcessKeyframesAsWritten(FadeDef(), ["100%", "0%"]) == Ok(Render("fade", FadeFrames(), ["100%", "0%"]))
    ensures ProcessKeyframes(FadeDef(), ["100%", "0%"]) == Ok(Render("fade", FadeFrames(), ["0%", "100%"]))
  {
    var order := ["100%", "0%"];
    FadeCollected();
    FadeSorted();
    FadeEnumerated(order);
    PrintedFromCollected(FadeDef(), order, "fade", FadeFrames());
  }

  lemma FadeEnumerated(order: seq<string>)
    requires order == ["100%", "0%"]
    ensures Enumerates(order, FadeFrames())
  {
    assert "100%" != "0%" by { assert |"100%"| != |"0%"|; }
  }

  /** Both printers print the collected frames of a named definition, in their order. */
  lemma PrintedFromCollected(def: Node, order: seq<string>, name: string, frames: Frames)
    requires Collect(def).name == name && name != [] && Collect(def).frames == frames
    requires Enumerates(order, frames)
    ensures ProcessKeyframesAsWritten(def, order) == Ok(Render(name, frames, order))
    ensures ProcessKeyframes(def, order) == Ok(Render(name, frames, SortedKeys(order)))
  {
  }

  /** The second printed line names the first frame of the order. */
  lemma FadeLines(order: seq<string>)
    requires order == ["100%", "0%"] || order == ["0%", "100%"]
    ensures |Lines(Render("fade", FadeFrames(), order))| > 1
    ensures Lines(Render("fade", FadeFrames(), order))[1] == "\t" + order[0] + " {"
  {
    RenderLines("fade", FadeFrames(), order);
    assert AllFrameLines(FadeFrames(), order)[0] == "\t" + order[0] + " {";
  }
}
