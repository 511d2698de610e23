# RCSS processors in Dafny

A model of the core of RCSS, a CSS preprocessor written in Rust. The
parser's output (pest `Pair`s) becomes a node tree: a grammar rule tag,
the node's raw text, its children and its line and column
(`Syntax.Node`). The processors are pure functions over that tree. The
source holds two generations of processors that share no types, and the
model keeps them apart.

**The metadata pipeline** (`src/common.rs`, `src/process_x/*`,
`src/compile.rs`) works over an ordered list of metadata entries
(`Metadata.MetaData`: variables, functions and keyframes). It covers:

- resolving a `&name` reference (`Variables`);
- the selector-stack engine that fills a declaration map (`SelectorEngine`);
- function definitions, whose declarations are resolved when they are defined (`FunctionDefs`);
- keyframe tables (`KeyframeTables`);
- imports, looked up in the project's metadata (`ImportResolver`);
- media-query maps (`MediaQueryMaps`);
- the window of source lines shown for a parse error (`ParseSnippet`).

Failures are `Outcome` values that carry the error record the code
builds: `VariableError`, `FunctionError`, `ImportError` or `ParseError`.

**The text emitter** (`src/rcss/*`) prints CSS directly. It covers:

- string-literal variables (`VariableEmitter`);
- rules and media queries in human-readable and compact form (`RuleEmitter`, `MediaEmitter`);
- user functions and their calls (`FunctionEmitter`);
- `@keyframes` with the percentage sort of its frames (`KeyframesEmitter`, `FrameOrder`);
- the file an `import` path names (`ImportPaths`).

The Rust `str` operations the code relies on are specified over
`seq<char>` in `Text`. These are `trim`, `split`, `join`, `replace`,
`lines`, `trim_start_matches` and `trim_end_matches`. `replace` is
non-overlapping and works left to right. `lines` drops a `\r` before
each `\n`.

A hash map's iteration order is unspecified. Wherever the code iterates
a map, the model takes the order as a parameter, and the parameter must
list every key exactly once.

`process_variable` in `src/rcss/compiler.rs:3-30` is the same code as
`src/rcss/process_x/variable.rs:3-30`. It is modelled once, as
`VariableEmitter.ProcessVariable`.

A nested `&:hover` selector is pushed as a frame of its own, and the
frames are joined with a space (`src/process_x/rule_normal.rs:24-33`,
`75-76`). So `A { &:hover { … } }` is stored under the key `A :hover`,
not `A:hover`; `SelectorEngine.HoverExample` proves this. The only
sorting in the modelled code is the sort of keyframe selectors.

## Model

| member | source | states |
|---|---|---|
| Variables.ResolveDeclaration | src/common.rs:6-63 | With no reference the result is the trimmed declaration. With a reference that no `Variables` entry declares it is a `VariableError` naming the reference without `&`, with the message "Could not find variable: …". Otherwise every occurrence of the reference is replaced by the first declared value. |
| Variables.FirstValue | src/common.rs:29-37 | The lookup finds nothing exactly when no `Variables` entry has the name; otherwise it returns the value of the first entry, in list order, that has it. |
| Variables.AllValues | src/process_x/functions.rs:50-62 | The loop without early exit collects the value of every matching entry. The list is empty exactly when the single lookup fails, it starts with the first value, and it holds exactly the declared values. |
| Variables.FirstValueIgnoresOthers | src/common.rs:29-31 | Removing every function and keyframes entry does not change any variable lookup. |
| Variables.ResolveIgnoresOthers | src/common.rs:29-31 | Function and keyframes entries never influence how a declaration resolves. |
| Variables.DeclLines | src/process_x/functions.rs:32-89 | A declaration without a reference gives its trimmed text as one line. One with a reference gives one replaced line per matching variable, or the `VariableError`. |
| Variables.DeclLinesAgree | src/process_x/functions.rs:47-86 | The per-line expansion fails exactly when `process_variable_declaration` fails, with the same error. On success its first line is that function's result. |
| Variables.PrefixOfLongerNameReplaced | src/common.rs:31-34 | The substitution is textual. With `&a` declared as "1", the declaration `x:&a2 &a` resolves to `x:12 1`, so the longer name `&a2` is rewritten too. |
| Metadata.Extend | src/process_x/rule_normal.rs:78-82 | `get_mut`/`push`, or `insert` of a new list: the lines are added at the end of the key's list (a new list when the key is absent), and every other key is unchanged. |
| Metadata.ExtendGrows | src/process_x/rule_normal.rs:132-136 | After extending, every key is still present and every list has only grown at its end. |
| SelectorEngine.Pop | src/process_x/rule_normal.rs:36-40 | A closing brace on an empty stack leaves it empty; otherwise it removes exactly the top frame. |
| SelectorEngine.CloseBrace | src/process_x/rule_normal.rs:36-40 | A `right_curly_brace` step is a no-op on an empty stack, and otherwise pops one frame and leaves the declarations alone. |
| SelectorEngine.SelectorPushes | src/process_x/rule_normal.rs:22-34 | A selector pushes one frame and leaves the declarations alone. |
| SelectorEngine.PseudoFrame | src/process_x/rule_normal.rs:24-31 | A selector starting with `&:` (which includes `&::`) is pushed without its `&`s, so its frame starts with `:`. |
| SelectorEngine.RefTokens | src/process_x/rule_normal.rs:50-57 | Every name comes from a token that starts with `&`, with its leading `&`s and trailing `;`/`,` removed. Every such token's name is among the results. A token with `&` only inside it, such as `a&b`, is not a reference, and tokens without `&` yield nothing. |
| SelectorEngine.ReferencedNames | src/process_x/rule_normal.rs:49-58 | A declaration without `:` references nothing. |
| SelectorEngine.RefTokensAppend | src/process_x/rule_normal.rs:50-57 | The references of two runs of tokens are those of the first followed by those of the second, in order. |
| SelectorEngine.ReferencesAfterColon | src/process_x/rule_normal.rs:49-50 | Only the text after the first `:` is scanned: `property: value`, with no `:` in the property, references exactly what the value's words do. |
| SelectorEngine.TokenNameStrips | src/process_x/rule_normal.rs:52-54 | `&name;` and `&name,` name `name`, when `name` neither starts with `&` nor ends in `;` or `,`. |
| SelectorEngine.SimpleReference | src/process_x/rule_normal.rs:49-58 | `property: &name;` references exactly `name`, for a one-word name. |
| SelectorEngine.ReferenceExample | src/process_x/rule_normal.rs:49-58 | `a: &b;` references `b`. |
| SelectorEngine.ReplacementsDistinct | src/process_x/rule_normal.rs:61-69 | The collected substitutions are only for referenced names, and no name is substituted twice (the `retain` drops a name once it is found). |
| SelectorEngine.ReplacementsFromFirst | src/process_x/rule_normal.rs:61-69 | Each substitution carries the value of the first `Variables` entry with that name. |
| SelectorEngine.ReplacementsComplete | src/process_x/rule_normal.rs:61-69 | Every referenced name that some `Variables` entry declares is substituted. |
| SelectorEngine.ReplacementsNoneDeclared | src/process_x/rule_normal.rs:61-69 | When no referenced name is declared, nothing is substituted. |
| SelectorEngine.ReplacementsSingle | src/process_x/rule_normal.rs:61-69 | A single referenced name gives one substitution with its first value, or none when it is undeclared. |
| SelectorEngine.NoReferenceUnchanged | src/process_x/rule_normal.rs:49-73 | A declaration containing no `&` is stored as it stands. |
| SelectorEngine.UnknownReferencesKept | src/process_x/rule_normal.rs:61-73 | References to undeclared names raise no error and stay in the text verbatim. |
| SelectorEngine.SingleReference | src/process_x/rule_normal.rs:61-73 | A declaration that references one declared name has every `&name` replaced by that name's first value. |
| SelectorEngine.LastFunctionBodySpec | src/process_x/rule_normal.rs:100-106 | A call takes the body of the last `Function` entry with an equal name, or the empty body when there is none. |
| SelectorEngine.DeclarationAppends | src/process_x/rule_normal.rs:42-83 | A declaration always succeeds. Its substituted, trimmed text is appended at the end of the list under the trimmed, space-joined stack, and the stack is unchanged. |
| SelectorEngine.UndeclaredCallFails | src/process_x/rule_normal.rs:85-126 | A call whose function is missing or has an empty body fails with a `FunctionError` ("Function not declared in scope") at the call's position. |
| SelectorEngine.DeclaredCallAppends | src/process_x/rule_normal.rs:128-136 | Otherwise the call appends the whole body, in order, under the current key, and the stack is unchanged. |
| SelectorEngine.StepFrame | src/process_x/rule_normal.rs:20-141 | One step can fail only on a function call. On success it only appends lines under the current key; every other key and list is unchanged. |
| SelectorEngine.RunGrows | src/process_x/rule_normal.rs:20-143 | Walking a rule only appends: no key or line present before is lost. |
| SelectorEngine.RunWithoutCallsSucceeds | src/process_x/rule_normal.rs:20-143 | A rule without function calls cannot fail. |
| SelectorEngine.RunFailsOnCall | src/process_x/rule_normal.rs:106-123 | A walk fails only at a function-call child, and the error is that call's "Function not declared in scope" at the call's position. |
| SelectorEngine.ProcessRuleNormal | src/process_x/rule_normal.rs:10-144 | On success the declaration map only grows: every key and line present before is kept. A failure is the `FunctionError` of one of the rule's function-call children. A rule without function calls always succeeds. |
| SelectorEngine.HoverExample | src/process_x/rule_normal.rs:10-144 | `A { &:hover { color: red; } }` stores its declaration under the key `A :hover`. |
| FunctionDefs.ProcessFunctionDefinition | src/process_x/functions.rs:8-108 | The definition fails exactly when its body fails. On success the metadata is the input with exactly one `Function` entry appended. The entry's name is the trimmed last `function_name`, and its body is the resolved declarations. A failure is the `VariableError` of the first block declaration whose reference does not resolve. |
| FunctionDefs.DefinitionFlattens | src/process_x/functions.rs:20-103 | The body is the declarations of all `function_block`s resolved as one run; names, parameter lists and other children contribute nothing. |
| FunctionDefs.BodyLinesAppend | src/process_x/functions.rs:29-94 | Resolving two runs of declarations one after the other is resolving their concatenation: the first error wins, otherwise the lines are joined in order. |
| FunctionDefs.BodyLinesFailure | src/process_x/functions.rs:64-86 | A run fails exactly when one of its declarations fails, and then with the error of the first one. |
| FunctionDefs.ReferenceFreeBody | src/process_x/functions.rs:87-89 | Declarations without references are stored trimmed and unchanged, one line each, in source order. |
| FunctionDefs.UniqueVariablesBody | src/process_x/functions.rs:47-63 | When every reference resolves to exactly one variable, the body has one line per declaration: the line `process_variable_declaration` gives. |
| FunctionDefs.DefinedThenCallable | src/process_x/functions.rs:105-107 | A call to the name just defined finds exactly the body just recorded. |
| KeyframeTables.ProcessKeyframesDefinition | src/process_x/keyframes.rs:5-118 | The definition fails exactly when walking its blocks fails. A failure is the `VariableError` of a declaration reached while a frame is current. On success the table is stored under `@keyframes <name>`, replacing any earlier one, and every other table is kept. |
| KeyframeTables.BlockRunFailure | src/process_x/keyframes.rs:26-94 | A block's walk fails only at a declaration whose reference does not resolve. The children before it went through, and a frame was current when it was reached. The error is that declaration's. |
| KeyframeTables.DefinitionRunFailure | src/process_x/keyframes.rs:17-110 | A definition fails only inside one of its blocks, at such a declaration, with that declaration's `VariableError`; the blocks before it went through. |
| KeyframeTables.DeclarationOutsideFrameDropped | src/process_x/keyframes.rs:34-35 | With no frame selector in force a declaration is dropped without being resolved, so even an unknown reference raises no error. |
| KeyframeTables.DeclarationInsideFrame | src/process_x/keyframes.rs:36-99 | Inside a frame a declaration either fails with its `VariableError`, or appends one line per matching variable at the end of that frame's list. |
| KeyframeTables.CloseBraceEndsFrame | src/process_x/keyframes.rs:103-105 | A closing brace clears the frame selector and keeps the table. |
| KeyframeTables.FrameCarriesOver | src/process_x/keyframes.rs:15-110 | A block that does not close its frame hands that frame on to the next block. |
| KeyframeTables.BlockStepKeepsNoEmptyFrame | src/process_x/keyframes.rs:26-109 | One child of a block only appends lines and never creates an entry for the empty selector. |
| KeyframeTables.DefinitionRunKeepsNoEmptyFrame | src/process_x/keyframes.rs:17-114 | Walking the whole definition only appends lines and never creates an entry for the empty selector. |
| KeyframeTables.StoredTableHasNoEmptyFrame | src/process_x/keyframes.rs:35-116 | A stored table has no entry for the empty frame selector. |
| ImportResolver.Identifiers | src/process_x/imports.rs:21-29 | One path segment per `identifier` child, in source order; other children are ignored. |
| ImportResolver.ProcessImportStatement | src/process_x/imports.rs:10-55 | The import succeeds exactly when the path key is in the project map. Then the result is the old metadata followed by the imported entries, in order. Otherwise it is an `ImportError` ("File not found") at the statement's position. |
| ImportResolver.TargetShape | src/process_x/imports.rs:32 | The key starts with the importing directory and `/`, and ends in `.rcss`. |
| ImportResolver.TargetSegments | src/process_x/imports.rs:32 | Between the directory and the extension, the key splits at `/` into exactly the identifiers (when none holds a `/`). |
| ImportResolver.ImportTwiceDuplicates | src/process_x/imports.rs:34-35 | Importing the same file twice appends its entries twice. |
| ImportResolver.FirstValueAppend | src/common.rs:29-37 | A lookup in a list extended at its end sees the front first. |
| ImportResolver.EarlierDeclarationsWin | src/process_x/imports.rs:34-35 | After an import, a variable the file declared earlier shadows the imported one, and any other name resolves to the imported value. |
| MediaQueryMaps.ProcessMediaQuery | src/process_x/media_queries.rs:10-46 | The query fails exactly when one of its rules fails. The error is then the `FunctionError` of a call, in one of its rules, to a function no metadata declares. On success the declarations of its rules, from a fresh map, are stored under the condition key, replacing any earlier map with that key; every other map is kept. |
| MediaQueryMaps.QueryRunFailsOnCall | src/process_x/media_queries.rs:28-36 | A query's walk fails only at a function call inside one of its `rule_normal` children, with that call's "Function not declared in scope" error. |
| MediaQueryMaps.QueryRunSplits | src/process_x/media_queries.rs:23-41 | The key is `@media ` and the trimmed last condition, or stays empty without one. The declarations are those of the `rule_normal` children folded in order, whatever else lies between them. Errors are those of the rules. |
| MediaQueryMaps.NoConditionEmptyKey | src/process_x/media_queries.rs:20-43 | A media query without a condition stores its rules under the empty key. |
| ParseSnippet.ParseFailure | src/compile.rs:29-46 | The `ParseError` carries the parser's position unchanged (the start of a span), its message and the snippet for that line. |
| ParseSnippet.WindowShape | src/compile.rs:36-37 | For an error on 1-based line L, the window is 0-based indexes L-2 up to L+1, clipped to the file. That is the line before, the error line and the line after: at most three lines, always holding the error line. It starts at index L-2 when L >= 2, and it ends at index L+1 when the file has a line after L. |
| ParseSnippet.SnippetLines | src/compile.rs:35-38 | Split at newlines, the snippet gives back exactly the window's lines: no trailing newline and no other lines. |
| Syntax.LastMatchWins | src/rcss/process_x/variable.rs:7-23 | A loop that overwrites a variable on every child with a tag ends on the text of the last such child. |
| VariableEmitter.StripQuotes | src/rcss/process_x/variable.rs:13-20 | A literal of two or more characters loses exactly its first and last character; a shorter one is kept. |
| VariableEmitter.ProcessVariable | src/rcss/process_x/variable.rs:3-30 | The result is a pair exactly when the last name and the unquoted last literal are both non-empty, and then it is that pair. |
| VariableEmitter.QuotedRoundTrip | src/rcss/process_x/variable.rs:13-29 | Quoting a non-empty value and extracting it gives the value back. |
| VariableEmitter.EmptyValueNone | src/rcss/process_x/variable.rs:15-29 | An empty quoted literal `""`, or no literal at all, gives no variable. |
| VariableEmitter.ShortLiteralKept | src/rcss/process_x/variable.rs:17-18 | A one-character literal is taken as it stands. |
| RuleEmitter.ProcessRuleAsWritten | src/rcss/compiler.rs:84-131 | Rule output always ends with `}`, followed by a newline only when human-readable. |
| RuleEmitter.ProcessRule | src/rcss/compiler.rs:84-131 | The corrected printer ends the same way, and in human-readable mode it prints exactly what the code prints. |
| RuleEmitter.RememberedSelectors | src/rcss/compiler.rs:111-112 | The remembered text is every selector so far, each followed by the separator. |
| RuleEmitter.NextSelectorHeader | src/rcss/compiler.rs:97-112 | Corrected, a later selector closes the previous block and opens one headed by all earlier selectors, separated by single spaces, then itself, in both modes. |
| RuleEmitter.CompactSelectorsRunTogether | src/rcss/compiler.rs:97-112 | As written in compact mode, the earlier selectors are run together with nothing between them. |
| RuleEmitter.ThreeSelectorsAsWritten | src/rcss/compiler.rs:92-130 | As written, a compact rule whose children are the selectors `A`, `B`, `C` prints `A{}A B{}AB C{}`. |
| RuleEmitter.ThreeSelectorsCorrected | src/rcss/compiler.rs:92-130 | Corrected, they print `A{}A B{}A B C{}`. |
| RuleEmitter.DeclarationsRun | src/rcss/compiler.rs:114-118 | Declarations append their lines (indent, trimmed text, newline) and leave the remembered selectors alone. |
| RuleEmitter.SingleSelectorBlock | src/rcss/compiler.rs:92-130 | A rule with one selector followed by declarations prints the same as written and corrected: the selector, the opening brace, one line per declaration and the closing brace. |
| RuleEmitter.DeclarationLinesUnlines | src/rcss/compiler.rs:114-118 | In human-readable mode the declaration lines are the trimmed declarations indented by four spaces, each ended by a newline. |
| RuleEmitter.SingleSelectorLines | src/rcss/compiler.rs:84-131 | Read back line by line, a human-readable single-selector rule is `sel {`, each trimmed declaration indented by four spaces, and `}`. |
| RuleEmitter.IndentBlocksUnlines | src/rcss/compiler.rs:66-72 | Indenting several inner blocks line by line is indenting all their lines together. |
| RuleEmitter.MediaQueryLines | src/rcss/compiler.rs:63-79 | Read back line by line, a human-readable media query is `@media <cond>{`, every line of every inner block indented by four spaces, and `}`. |
| RuleEmitter.HumanReadableMedia | src/rcss/compiler.rs:63-79 | The human-readable media query is its header, each inner line indented and ended by a newline, and `}` with a newline. |
| RuleEmitter.CompactRuleSingleLine | src/rcss/compiler.rs:88-130 | In compact mode a rule whose texts have no newline prints without a newline. This holds for the printer as written and for the corrected one. |
| RuleEmitter.ProcessMediaQuery | src/rcss/compiler.rs:32-82 | The output is one `@media` block: it opens with `@media`, a space when human-readable, the condition, `{` and a newline when human-readable, and it closes with `}` and a newline when human-readable. Rules inside are printed by the rule printer as written. |
| RuleEmitter.CompactMediaSingleLine | src/rcss/compiler.rs:73-79 | In compact mode a media query, nested queries included, prints without a newline when its texts have none. The rules inside are printed by the rule printer as written. |
| MediaEmitter.ProcessMediaQueryAsWritten | src/rcss/process_x/media_query.rs:4-56 | As written, the output is one `@media` block with the same header and closer as the compiler's, whatever the rule printer. |
| MediaEmitter.ProcessMediaQuery | src/rcss/process_x/media_query.rs:4-56 | Corrected, the output is an `@media` block of the same shape. |
| MediaEmitter.AgreesWithCompiler | src/rcss/process_x/media_query.rs:4-56 | Given the compiler's rule printer as written, the corrected printer prints exactly what `process_media_query` in the compiler prints, nested queries included. |
| MediaEmitter.EqualFlagsUnaffected | src/rcss/process_x/media_query.rs:27 | When `human_readable` and `verbose` are equal, the swapped arguments make no difference. |
| MediaEmitter.NestedQueryAsWritten | src/rcss/process_x/media_query.rs:25-28 | As written, a human-readable, non-verbose query prints a nested query in compact form: `@media {\n    @media{}\n}\n`. |
| MediaEmitter.NestedQueryCorrected | src/rcss/process_x/media_query.rs:25-28 | Corrected, the nested query is printed human-readable and indented like any other block. |
| MediaEmitter.EmptyQueryReadable | src/rcss/process_x/media_query.rs:37-53 | An empty query prints the header `@media {` and the closer `}`, each followed by a newline. |
| MediaEmitter.IndentTwoLines | src/rcss/process_x/media_query.rs:40-46 | Each line of an inner block is printed as four spaces, the line and a newline. |
| FunctionEmitter.ProcessFunctionDefinitionAsWritten | src/rcss/process_x/function.rs:5-45 | Only the first child is looked at: there is a function exactly when it is a non-empty `function_name`, and that function has no parameters and no declarations. |
| FunctionEmitter.ProcessFunctionDefinition | src/rcss/process_x/function.rs:5-45 | Corrected, there is a function exactly when the last name is non-empty; it carries that name and no parameters. |
| FunctionEmitter.WithSemicolon | src/rcss/process_x/function.rs:71-75 | Every printed declaration ends in `;`. A declaration that already ends in `;` is kept as it is; any other gets exactly one `;` appended. |
| FunctionEmitter.WithSemicolonIdempotent | src/rcss/process_x/function.rs:71-75 | The `;` is added only when it is missing: adding it twice is adding it once. |
| FunctionEmitter.ProcessFunctionCall | src/rcss/process_x/function.rs:47-85 | A call prints something exactly when the trimmed name, with `();` removed, maps to a function. |
| FunctionEmitter.ReadableCallLines | src/rcss/process_x/function.rs:60-79 | In human-readable mode a call prints one line per declaration, in order, indented by four spaces and ended by `;`. |
| FunctionEmitter.CallLinesReadBack | src/rcss/process_x/function.rs:60-79 | Read back line by line, the human-readable call is those lines, each ending in `;`. |
| FunctionEmitter.CompactCallLines | src/rcss/process_x/function.rs:60-79 | In compact mode the declarations are run together, each ended by its `;`. |
| FunctionEmitter.CalledNameOfCall | src/rcss/process_x/function.rs:53 | A call written `name();` refers to `name`. |
| FunctionEmitter.DefineThenCall | src/rcss/process_x/function.rs:5-85 | Corrected, once a definition is stored under its name a call prints the declarations of every block. |
| FunctionEmitter.AsWrittenCallPrintsNothing | src/rcss/process_x/function.rs:32-43 | As written, a stored definition has no declarations, so a call to it prints nothing. |
| FunctionEmitter.ColorFunctionExample | src/rcss/process_x/function.rs:11-43 | A name followed by a block with `color: red` loses the declaration as written and keeps it corrected. |
| KeyframesEmitter.ProcessKeyframesAsWritten | src/rcss/process_x/keyframes.rs:7-79 | An empty name is the error "Keyframes name is missing". Otherwise the frames are printed in the map's own iteration order. |
| KeyframesEmitter.ProcessKeyframes | src/rcss/process_x/keyframes.rs:49-76 | The same error; otherwise the frames are printed in `sorted_keys` order. |
| KeyframesEmitter.CollectRunKeeps | src/rcss/process_x/keyframes.rs:18-47 | Collecting only adds: keys stay, lists are only extended, and every key and declaration is trimmed. |
| KeyframesEmitter.CollectTrimmed | src/rcss/process_x/keyframes.rs:25-37 | Every selector key and every declaration is stored trimmed. |
| KeyframesEmitter.SelectorCreatesEntry | src/rcss/process_x/keyframes.rs:27-32 | A selector becomes the current one and gets an entry even without declarations; an existing entry keeps its list. |
| KeyframesEmitter.DeclarationUnderCurrent | src/rcss/process_x/keyframes.rs:33-38 | A declaration is appended under the current selector (the empty one before any selector); no other entry changes. |
| KeyframesEmitter.BraceKeepsSelector | src/rcss/process_x/keyframes.rs:26-41 | A closing brace changes nothing: the selector stays in force. |
| KeyframesEmitter.RenderLines | src/rcss/process_x/keyframes.rs:61-76 | Read back line by line, the output is `@keyframes <name> {`, then `\t<key> {`, `\t\t<decl>` per declaration and `\t}` for each frame in order, then `}`. |
| KeyframesEmitter.EnumerationsSameMultiset | src/rcss/process_x/keyframes.rs:67 | Two iteration orders of the same map list the same keys, each once. |
| KeyframesEmitter.SortedOrderEnumerates | src/rcss/process_x/keyframes.rs:54-57 | `sorted_keys` lists every frame exactly once. |
| KeyframesEmitter.CorrectedIgnoresEnumeration | src/rcss/process_x/keyframes.rs:54-74 | Corrected, the output does not depend on the iteration order when every selector is a percentage and no two share a number. |
| KeyframesEmitter.FadeOrder | src/rcss/process_x/keyframes.rs:54-74 | For frames `0%` and `100%` iterated as `100%`, `0%`, the code prints `100%` first while the sorted order prints `0%` first. |
| KeyframesEmitter.FadeLines | src/rcss/process_x/keyframes.rs:67-68 | The second printed line names the first frame of the order. |
| FrameOrder.ParseU32 | src/rcss/process_x/keyframes.rs:56 | `parse::<u32>` succeeds only on a non-empty numeral whose value fits in 32 bits: every character is a digit, except a leading `+`, and the text is not `+` alone. |
| FrameOrder.UnparseableKeyZero | src/rcss/process_x/keyframes.rs:56 | A selector whose number part holds a character that is neither a digit nor a leading `+` does not parse, so it sorts under 0. |
| FrameOrder.LetterKeyZero | src/rcss/process_x/keyframes.rs:56 | `x%` sorts under 0. |
| FrameOrder.ParseDecimal | src/rcss/process_x/keyframes.rs:56 | A decimal numeral reads back exactly when it fits in 32 bits. |
| FrameOrder.PercentKey | src/rcss/process_x/keyframes.rs:56 | The selector `n%` sorts under `n`. |
| FrameOrder.SortByKeySpec | src/rcss/process_x/keyframes.rs:56 | The sort returns a permutation of the keys, ordered by sort key, and keeps keys with equal sort keys in their original order (stable). |
| FrameOrder.SortedUnique | src/rcss/process_x/keyframes.rs:56 | Two sorted permutations of the same keys are equal when no two keys share a sort key. |
| FrameOrder.SortedKeysIgnoreEnumeration | src/rcss/process_x/keyframes.rs:54-57 | When every selector ends in `%` and their numbers differ, `sorted_keys` is the same from any enumeration of the same selectors. |
| ImportPaths.DropStars | src/rcss/process_x/import.rs:20 | The remaining pieces are pieces of the input, none of them `*`. |
| ImportPaths.DropStarsAppend | src/rcss/process_x/import.rs:20 | `*` pieces are dropped wherever they stand, not only at the end. |
| ImportPaths.SegmentsOfJoin | src/rcss/process_x/import.rs:16-21 | Splitting pieces joined by `::` gives them back, minus the `*` pieces. |
| ImportPaths.JoinPath | src/rcss/process_x/import.rs:23 | `Path::join`: an absolute path replaces the directory; otherwise the result starts with the directory and ends with the relative path. |
| ImportPaths.Stem | src/rcss/process_x/import.rs:24-26 | The stem is a prefix of the name, and is non-empty when the name is. |
| ImportPaths.TargetExtension | src/rcss/process_x/import.rs:24-26 | The file named ends in `.rcss` exactly when the joined path already did, or its last component is neither empty nor `..`. |
| ImportPaths.ParentKeepsName | src/rcss/process_x/import.rs:23-26 | An import of `..` names the parent directory itself, with no extension. |
| ImportPaths.SetRcssIdempotent | src/rcss/process_x/import.rs:24-26 | Setting the extension twice is setting it once. |
| ImportPaths.StemmedKept | src/rcss/process_x/import.rs:24-26 | `dir/stem.rcss` is left as it is. |
| ImportPaths.ImportOfIdentifiers | src/rcss/process_x/import.rs:15-26 | An import `a::b::c` of plain identifiers under a directory names `dir/a/b/c.rcss`. |
| ImportPaths.AgreesWithResolver | src/rcss/process_x/import.rs:15-26 | For plain identifiers, the emitter and the metadata pipeline resolve an import to the same file. |
| ImportPaths.WildcardIgnored | src/rcss/process_x/import.rs:16-21 | A trailing `::*` makes no difference to the file named. |
| ImportPaths.ProcessImport | src/rcss/process_x/import.rs:13-32 | One path per `import_path` child, in order; other children are skipped. |

## Left out

- File I/O, printing and timing are left out. This covers the `println!`/`eprintln!` calls, `display_error`, verbose logging and `Instant`. The paths `process_import` prints are returned instead.
- `get_error_context` is called but its code is not part of this model. The error records carry no context field, except `ParseError`, whose snippet `src/compile.rs` computes itself.
- Hash-map iteration order is a parameter. Every iteration order is allowed, and the parameter must list each key once.
- The crate's four-argument `process_rule(pair, meta_data, human_readable, verbose)`, called from `src/rcss/process_x/media_query.rs:23`, is not part of this model. It is passed in as a parameter. `MediaEmitter.AgreesWithCompiler` instantiates it with the compiler's `process_rule` as written, ignoring verbosity.
- RuleEmitter.ProcessMediaQuery: its own contract states only the block's header and closer. The lines inside are stated by `RuleEmitter.MediaQueryLines`, `RuleEmitter.HumanReadableMedia` and `RuleEmitter.CompactMediaSingleLine`.
- MediaEmitter.ProcessMediaQueryAsWritten: its own contract states only the block's header and closer. The contents are stated by `MediaEmitter.EqualFlagsUnaffected` and `MediaEmitter.NestedQueryAsWritten`.
- MediaEmitter.ProcessMediaQuery: its own contract states only the block's header and closer. The contents are stated by `MediaEmitter.AgreesWithCompiler`.
- Function parameters are never collected by either generation, so they are left out.
- Byte-index slicing is modelled as character slicing, which is exact for ASCII input. The panics on non-character boundaries are left out.
- ImportPaths.JoinPath: does not model the normalisation of `Path`. A `.` component, repeated `/` separators and the trailing `/` of a directory are taken as plain text, except that `SetRcssExtension` ignores trailing `/`s as `set_extension` does.
- ParseSnippet.ParseFailure: requires the reported line to be at most two past the last line, because slicing `lines[start..end]` panics beyond that. The parser never reports such a line.
- The metadata arguments of `process_import` and `process_keyframes` in `src/rcss/` are unused by the code, so they are left out.
- `print_rule`, called on unexpected children in `src/process_x/functions.rs:100`, only prints, so it is left out.

## Findings

| source | as written | input that shows it | evidently intended | confidence | as-written member | corrected member |
|---|---|---|---|---|---|---|
| src/rcss/compiler.rs:111-112 | The earlier selectors are remembered each followed by `space`, which is empty in compact mode, so they run together. | Compact rule with selectors `A`, `B`, `C`: the third block is headed `AB C`. | The earlier selectors separated by one space: `A B C`. | high; not executed | RuleEmitter.ThreeSelectorsAsWritten | RuleEmitter.ThreeSelectorsCorrected |
| src/rcss/process_x/media_query.rs:27 | A nested query is printed with the arguments `verbose, human_readable` in swapped positions. | Human-readable, non-verbose query holding an empty nested query: the nested one prints compact, as `@media{}`. | The nested query printed in the same mode as its parent, as the compiler's own `process_media_query` does. | high; not executed | MediaEmitter.NestedQueryAsWritten | MediaEmitter.NestedQueryCorrected |
| src/rcss/process_x/function.rs:32-43 | The `return` sits inside the loop, so only the first child is looked at and no declaration is ever stored. | A definition `f` followed by a block holding `color: red`: the function stored has no declarations. | The return after the loop, keeping the name and every block's declarations. | high; not executed | FunctionEmitter.ColorFunctionExample | FunctionEmitter.DefineThenCall |
| src/rcss/process_x/keyframes.rs:54-67 | `sorted_keys` is computed and then not used; the frames are printed in hash-map order. | Frames `0%` and `100%` iterated as `100%`, `0%`: the `100%` frame is printed first. | The frames printed in `sorted_keys` order. | high; not executed | KeyframesEmitter.FadeOrder | KeyframesEmitter.CorrectedIgnoresEnumeration |
