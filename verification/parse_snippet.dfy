/**
 * The parse-error report of `compile` (src/compile.rs): the parser's
 * position and a window of at most three source lines around it: the line
 * before the error line, the error line itself and the line after.
 */
module ParseSnippet {
  import opened Text
  import opened Metadata

  /** Where the parser reports an error: one 1-based position or a span of two. */
  datatype LineColLocation =
    | Pos(line: nat, column: nat)
    | Span(startLine: nat, startColumn: nat, endLine: nat, endColumn: nat)

  /** The reported position: the position itself, or the start of a span. */
  function Position(loc: LineColLocation): (nat, nat) {
    match loc
    case Pos(l, c) => (l, c)
    case Span(l, c, _, _) => (l, c)
  }

  /** `usize::saturating_sub`. */
  function SaturatingSub(a: nat, b: nat): nat {
    if a >= b then a - b else 0
  }

  function Min(a: nat, b: nat): nat {
    if a <= b then a else b
  }

  /**
   * The window of 0-based line indexes shown for an error on 1-based line
   * `line`: indexes `line - 2` (saturating at 0) up to, but not including,
   * `line + 1`, cut at the number of lines. Index `line - 1` is the error
   * line, so the window is the line before it, it and the line after it.
   */
  function Window(line: nat, lineCount: nat): (nat, nat) {
    (SaturatingSub(line, 2), Min(line + 1, lineCount))
  }

  /**
   * The context lines joined with newlines. Slicing `lines[start..end]`
   * panics when the start passes the end, that is when `line` is more than
   * two past the last line; the position a parser reports never is.
   */
  function Snippet(raw: string, line: nat): string
    requires line <= |Lines(raw)| + 2
  {
    var w := Window(line, |Lines(raw)|);
    Join(Lines(raw)[w.0..w.1], "\n")
  }

  /** The `ParseError` built from a parser failure. */
  function ParseFailure(raw: string, filePath: string, loc: LineColLocation, message: string): (r: RcssError)
    requires Position(loc).0 <= |Lines(raw)| + 2
    ensures r.ParseError? && r.filePath == filePath && r.message == message
    ensures loc.Pos? ==> r.line == loc.line && r.column == loc.column
    ensures loc.Span? ==> r.line == loc.startLine && r.column == loc.startColumn
    ensures r.context == Snippet(raw, r.line)
  {
    var (line, column) := Position(loc);
    ParseError(filePath, line, column, message, Snippet(raw, line))
  }

  // ---------------------------------------------------------------- properties

  /**
   * The window is at most three lines long. For a line of the file it holds
   * that line (index `line - 1`), the line before it when there is one and
   * the line after it when there is one.
   */
  lemma WindowShape(line: nat, lineCount: nat)
    requires line <= lineCount + 2
    ensures var w := Window(line, lineCount);
            w.0 <= w.1 <= lineCount && w.1 - w.0 <= 3
    ensures 2 <= line ==> Window(line, lineCount).0 == line - 2
    ensures line < lineCount ==> Window(line, lineCount).1 == line + 1
    ensures 1 <= line <= lineCount ==>
              var w := Window(line, lineCount);
              w.0 <= line - 1 < w.1 && w.1 - w.0 == (if line >= 2 then 3 else 2) - (if line == lineCount then 1 else 0)
  {
  }

  /**
   * The snippet is exactly the window's lines: splitting it at newlines
   * gives them back, so it holds no trailing newline and no other lines.
   */
  lemma SnippetLines(raw: string, line: nat)
    requires line <= |Lines(raw)| + 2
    ensures var w := Window(line, |Lines(raw)|);
            w.0 < w.1 ==> SplitOn(Snippet(raw, line), "\n") == Lines(raw)[w.0..w.1]
    ensures var w := Window(line, |Lines(raw)|);
            w.0 == w.1 ==> Snippet(raw, line) == []
  {
    var ls := Lines(raw);
    var w := Window(line, |ls|);
    var part := ls[w.0..w.1];
    if w.0 < w.1 {
      assert forall i :: 0 <= i < |part| ==> part[i] == ls[w.0 + i];
      SplitOnJoin(part, "\n");
    }
  }
}
