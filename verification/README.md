# expviewer template engine — a verified model

expviewer renders `.exp` views: HTML with embedded JavaScript blocks (`<% … %>`), inline
expressions (`<%= … %>`) and include directives. This project models its core in Dafny.
It covers three source files.

- **The tree builder and include machinery** (`src/builder.ts`).
  - `walk` cuts scope-tagged tokens into `block`, `inline` and `text` nodes and
    `include` directives.
  - `compile` turns each node into a source-map node of generated JavaScript, tagged with
    its 1-based original position.
  - `include`, `getCachedSource` and `resolveIncludePath` read each included view once and
    cache it.
  - The builder records every include it resolved (`includeMap`) and every include that
    failed (`includeErrors`).
  - `getLast` and `walkPosition` walk the generated-node tree.
  - `getIncludeTraces` climbs the include records from a generated position to the chain
    of directives that produced it.
- **The token coalescer** (`src/tokenizer.ts`).
  - `getState` and `getContext` classify a token.
  - The loop of `tokenizeLine` folds runs of raw grammar tokens with one scope string.
  - The two passes of `tokenize`: the first drops delimiters and merges neighbours of one
    line; the second merges neighbours across lines with a line feed.
- **The string escapers** (`src/utils.ts`): `escapeQuotes`, `escapeUL`, `escapeJsString`,
  `escapeHtml` and `parseError`.

## Files

- `wrappers.dfy` (module `Wrappers`): `Option` and `Result`.
- `strings.dfy` (module `Strings`): the JavaScript string built-ins the core uses, written
  out over `seq<char>`. These are `split` on one character, `split(/\r\n|\n/)`, `join`,
  `substring` and `${n}`, each with its round-trip lemmas.
- `utils.dfy` (module `Utils`): the escapers and `parseError` as functions, with lemmas.
- `runs.dfy` (module `Runs`): `Groups`, the partition of a sequence into maximal runs of
  equal key.
  - It is proved to be a partition into uniform, maximal runs (`GroupsIsRunPartition`).
  - It is the only such partition (`GroupsUnique`).
  - All three merge loops of the tokenizer are specified as a map over `Groups`.
- `tokenizer.dfy` (module `Tokenizer`):
  - `GetState` and `GetContext` as functions.
  - The loops of `tokenizeLine` and `tokenize` as methods (`TokenizeLine`, `MergeLine`,
    `Tokenize`, `MergeAcross`). Each is proved equal to a specification function, and the
    source's promises are lemmas about those functions.
- `walk.dfy` (module `Walk`): the `walk` pass.
  - A recursive-descent specification `WalkSpec`, one function per loop of the source.
  - The imperative cursor loop `Walk`, proved equal to it, with the inner loops as
    `ReadBlock`, `ReadParams` and `ReadInline`.
- `builder.dfy` (module `Builder`):
  - Source-map nodes as a datatype.
  - The pure compilation of nodes without include directives.
  - `class Builder`, whose fields `sourceCaches`, `includeMap` and `includeErrors` its
    methods update.
  - `walkPosition` as a function, and the trace search.

The services the builder calls are fields of a `Host` value. They are the tokenizer, `eval`
of one include argument, `path.join`, `resolve(dirname(from), …)` and `readFileSync`. The
source-map consumer's `allGeneratedPositionsFor` is a function parameter `Consumer`.

Behaviour kept as the code has it:

- **Rewritten text.** A text node's literal is written with its quotes escaped, but a
  backslash is not escaped. A view holding the two characters `\n` therefore prints a line
  break once the generated code runs (`Builder.TextBackslash`).
- **Lone carriage return.** Text is split into lines at `\r\n` and `\n` only. A carriage
  return not followed by a line feed therefore stays raw inside the string literal
  (`Builder.TextLoneCR`). A raw carriage return ends a JavaScript string literal with a
  syntax error, so such a view compiles to code that does not parse
  (`Builder.TextLiteral`). `Unescape` reads the escapes that backslash-free text produces
  (the escaped quote and `\n`) and the single-character escapes. It has no value for the
  escapes it does not read (digits, `x`, `u`, line continuations) or for a raw line break.
- **Lost `first` flag.** `walkPosition` drops its `first` flag when it recurses. Looking
  for the last position of a node therefore descends into the *first* child below the top
  level (`Builder.WalkPositionLastDescendsFirst`).
- **No start-column check.** In `getIncludeTraces`, the same-line branch falls through to
  the general test, so the start column is never checked (`Builder.AcceptsBounds`).
- **Filtered index.** Positions are taken at the record's index in the filtered list, not
  at index 0. A record whose position list is too short makes the source throw, and the
  model returns `None`.
- **Overwritten value.** In `tokenizeLine`, a run of raw tokens with one scope string keeps
  only the last token's text, because the value is overwritten, not appended
  (`Tokenizer.LineTokensOverwrite`).
- **Empty tokens.** A source node keeps only non-empty strings, so a token with an empty
  value compiles to a node with no chunk (`Builder.CompileLeaf`, `Builder.TextChunks`).
  Looking up its positions then returns its own empty list instead of descending.
- **Include at the end.** After an include directive, the next token is pushed as a block
  child whatever it is. When there is no next token, the source reads `scope` of
  `undefined` and throws, which the model writes as `Err(ScopeOfUndefined)`
  (`Walk.IncludeAtEndFails`).
- **Parse errors.** `parse` called by `build` passes the walk's exception up to the caller.
  Called by `include`, that exception is caught by `compile` and recorded as an include
  error.

## Model

| member | source | states |
|---|---|---|
| Walk.WalkSpec | src/builder.ts:167-239 | `walk` as recursive descent, one function per loop of the source; `Walk` is proved to return it, and `WalkShape` and `WalkFromShape` state its shape and when it fails |
| Walk.ScanParams | src/builder.ts:179-181 | the include-parameter loop stops at or after its start and within the token list |
| Walk.ScanInline | src/builder.ts:206-214 | the inline loop stops at or after its start and within the token list |
| Walk.ScanBlock | src/builder.ts:175-196 | the block loop, when it does not fail, stops at or after its start and within the token list |
| Walk.AfterIncludes | src/builder.ts:176-195 | a run of include directives and the child after it moves the cursor strictly forward |
| Walk.Walk | src/builder.ts:167-239 | the cursor loop returns exactly `WalkSpec`, the failure included |
| Walk.ReadBlock | src/builder.ts:173-196 | the block loop with its nested include loops returns exactly `ScanBlock` from the token after the start |
| Walk.ReadParams | src/builder.ts:177-181 | the parameter loop returns the parameters and the stop position of `ScanParams` |
| Walk.ReadInline | src/builder.ts:204-214 | the inline loop returns the children and the stop position of `ScanInline` |
| Walk.PlainTextStep | src/builder.ts:221-236 | a plain-text token outside any region adds exactly one text node whose location and single child are the token's |
| Walk.StrayTokenStep | src/builder.ts:170-171 | a token with no start scope and no plain-text scope is dropped and the walk goes on at the next token |
| Walk.WalkAllText | src/builder.ts:167-239 | a list of plain-text tokens walks to one text node per token, in order |
| Walk.ScanInlineChildren | src/builder.ts:206-214 | the inline loop's children are, in order, exactly the leaves of the tokens before the first inline end, and it stops on that end or at the end of the list |
| Walk.InlineStep | src/builder.ts:203-220 | an inline start yields an inline node of the tokens strictly between it and the next inline end; the node ends at that end token or, when unterminated, at the last token's end; it never fails |
| Walk.BlockOpens | src/builder.ts:172-202 | a block start whose inside scans pushes one block node ending at the stop token and hands that token to the inline check |
| Walk.InlineOpens | src/builder.ts:203-220 | an inline start pushes one inline node and hands the stop token to the text check |
| Walk.ScanParamsValues | src/builder.ts:179-181 | the parameters are the concatenated values of the tokens up to the first include end |
| Walk.IncludeDirective | src/builder.ts:176-186 | a directive's arguments are its parameter text split on commas: at least one, and joining them gives the text back |
| Walk.ScanBlockArgs | src/builder.ts:182-186 | every include directive in a scanned block has at least one argument |
| Walk.AfterIncludesArgs | src/builder.ts:176-188 | every include directive pushed by a run of directives has at least one argument |
| Walk.ScanBlockNoIncludes | src/builder.ts:175-196 | without include directives, a block scan never fails |
| Walk.WalkFromShape | src/builder.ts:169-237 | from any cursor, at most one node per remaining token, every node well formed, failure only with include directives present |
| Walk.BlockCheckShape | src/builder.ts:172-202 | the block check adds at most one node per remaining token and keeps every node well formed |
| Walk.InlineCheckShape | src/builder.ts:203-220 | the inline check adds at most one node per remaining token and keeps every node well formed |
| Walk.TextCheckShape | src/builder.ts:221-236 | the text check adds at most one node per remaining token and keeps every node well formed |
| Walk.WalkShape | src/builder.ts:167-239 | `walk` emits at most one node per token, every node well formed, and fails only on a view with include directives |
| Walk.IncludeAtEndFails | src/builder.ts:175-189 | an include directive as the last token of a block makes `walk` fail |
| Builder.ChunksCodeConcat | src/builder.ts:308 | the generated code of concatenated chunks is the concatenation of their codes |
| Builder.TextCode | src/builder.ts:313 | the text fragment `;write("…");` of a text node; `TextCodeLines`, `TextCodePlain`, `TextLiteral` and `TextLoneCR` state what the literal holds and how it reads back |
| Builder.TextCodeLines | src/builder.ts:313 | a text fragment is `;write("`, the quote-escaped lines joined by backslash-n, and `");`, and holds no line feed |
| Builder.TextCodePlain | src/builder.ts:313 | a one-line text without quotes is written as it is between `;write("` and `");` |
| Builder.EscapeValue | src/builder.ts:313 | the value of one escape in a JavaScript string literal, as `Unescape` reads it (`UnescapeEscaped`) |
| Builder.Unescape | src/builder.ts:313 | the value of a JavaScript string literal body, the reading `TextLiteral` and `TextBackslash` apply to the text fragment; `UnescapeRejectsBreaks`, `UnescapeCons` and `UnescapeEscaped` state its cases |
| Builder.UnescapeRejectsBreaks | src/builder.ts:313 | a string literal body with a raw line feed or carriage return has no value |
| Builder.UnescapeCons | src/builder.ts:313 | an ordinary character of a literal body stands for itself |
| Builder.UnescapeEscaped | src/builder.ts:313 | a backslash escape stands for the value of its escape character |
| Builder.UnescapeEscapeQuotes | src/builder.ts:313 | reading a literal back undoes the quote escaping of text free of backslashes and line breaks, whatever follows it |
| Builder.UnescapeLines | src/builder.ts:313 | escaped lines joined by backslash-n read back as the lines joined by line feeds |
| Builder.TextLiteral | src/builder.ts:313 | for backslash-free text: without a lone carriage return the literal reads back as the text with its line breaks normalised to line feeds, and as the text itself when it has no carriage return; with a lone carriage return it has no value |
| Builder.TextLoneCR | src/builder.ts:313 | a lone carriage return of the text stays raw in the literal and in the text fragment |
| Builder.TextBackslash | src/builder.ts:313 | the two characters backslash and `n` in a view read back as a line feed |
| Builder.CompileLeaf | src/builder.ts:345-346 | a token child's node at its 1-based position holding its value; `LeafNodesCode` and `TextChunks` state its code |
| Builder.CompileText | src/builder.ts:311-314 | a text node's node at its position holding `TextCode` of its text; `CompileTreeCode` and `TextTreesCode` state its code |
| Builder.CompileInline | src/builder.ts:306-309 | an inline node's node at its position: `;write(`, its compiled children, `);`; `CompileTreeCode` states its code |
| Builder.LeafNodes | src/builder.ts:303 | a block's leaf children compile to one chunk each |
| Builder.TextChunks | src/builder.ts:346 | the chunks kept of a string give that string back as code: none for the empty string |
| Builder.LeafNodesCode | src/builder.ts:345-346 | the code of compiled leaves is their values, concatenated |
| Builder.CompileTree | src/builder.ts:300-314 | every fragment carries its source and the 1-based start line and column of its node |
| Builder.CompileTreeCode | src/builder.ts:301-314 | a block's code is its children's values; an inline node's is `;write(` + values + `);`; a text node's is its text fragment |
| Builder.CompileAll | src/builder.ts:157 | one compiled node per tree node |
| Builder.TextTreesCode | src/builder.ts:311-314 | the text nodes of a token list compile to the text fragments of the tokens, in order |
| Builder.TextViewCompiles | src/builder.ts:152-158 | a view of plain text walks to one text node per token and compiles to their text fragments |
| Builder.TextViewWalk | src/builder.ts:167-239 | a view of plain text walks to one text node per token |
| Builder.LastNodeIndex | src/builder.ts:357-360 | the index of the last chunk that is a node, every chunk after it being text; None when every chunk is text |
| Builder.LastDescendant | src/builder.ts:355-364 | the last node found has no node among its chunks |
| Builder.FirstChild | src/builder.ts:327 | the first chunk of a node, present exactly when it has chunks |
| Builder.WalkPosition | src/builder.ts:137-143 | `walkPosition`, with `None` where the source throws on a text chunk; `WalkPositionNodes`, `WalkPositionOwn` and `WalkPositionLastDescendsFirst` state its cases |
| Builder.WalkPositionNodes | src/builder.ts:137-143 | on a tree of nodes `walkPosition` never throws, and it returns no position only where the node itself has none and no children |
| Builder.WalkPositionOwn | src/builder.ts:138-142 | a node with positions of its own, or with no children, gives its own positions |
| Builder.WalkPositionLastDescendsFirst | src/builder.ts:140 | asking for the last position descends into the first child below the top level |
| Builder.FirstCache | src/builder.ts:247-249 | the first cache entry for a file is an entry for it, and there is none only when no entry has that source |
| Builder.FirstCacheAt | src/builder.ts:248 | the entry found is the one with the least index for that source |
| Builder.FirstCacheAppend | src/builder.ts:283-286 | appending to the cache never changes an entry already found |
| Builder.StripExp | src/builder.ts:259 | removing a trailing `.exp` leaves a prefix of the path |
| Builder.WithExpCases | src/builder.ts:259-262 | a path ending in `.exp` is handed to `resolve` as it is, any other with `.exp` appended; stripping `.exp` from either gives the same path |
| Builder.EvalArgs | src/builder.ts:319 | the arguments evaluate in order to one value each, or fail with the exception of one of them |
| Builder.Builder.constructor | src/builder.ts:66-78 | a new builder has the given services and resolver and empty cache, include map and error list |
| Builder.Builder.GetCachedSource | src/builder.ts:247-249 | the cached view of a file is a cache entry for it; there is none only when no entry has that source |
| Builder.Builder.ResolveIncludePath | src/builder.ts:258-263 | a custom resolver gets the path without `.exp`; otherwise the path with `.exp` is resolved from the including file |
| Builder.Builder.ResolveIgnoresExp | src/builder.ts:258-262 | a path resolves the same with and without a trailing `.exp` |
| Builder.Builder.Include | src/builder.ts:272-290 | on a cache hit, the stored node and nothing changes; on a miss, exactly what reading the file and `parse` give (`IncludedView`): the read exception, a stack overflow past the bound, the walk exception, or the parsed view, appended to the cache as the last entry; on a failure nothing changes; the records only grow |
| Builder.Builder.Parse | src/builder.ts:152-158 | fails exactly when the walk does, with the walk exception, and then changes nothing; otherwise a node without a position, one node per tree node at its position; without include directives, the pure compilation and nothing changes |
| Builder.Builder.Compile | src/builder.ts:300-314 | the fragment carries its source and position; without include directives it is the pure compilation and nothing changes; a block has one child node per child, each at its position: a token child is its compiled leaf, an include child holds the included view or a `" "` placeholder |
| Builder.Builder.CompileChild | src/builder.ts:300-347 | a child's fragment carries its source and position; a leaf compiles to its value and changes nothing; an include child does what `CompileInclude` states (`IncludeCompiled`) |
| Builder.Builder.CompileInclude | src/builder.ts:316-343 | a throwing argument is recorded as a failure; otherwise the joined path is included (`FileIncluded`): a cache hit gives the cached view and appends one include record only; a miss gives the view `include` parses and caches, with its include record last, or records the exception `include` gives (read, stack overflow or walk) with a `" "` placeholder, leaving cache and include records as they were |
| Builder.Builder.IncludeFile | src/builder.ts:321-331 | the `try` block from the joined path on: the outcome `FileIncluded` states |
| Builder.Builder.RecordInclude | src/builder.ts:322-331 | one include record with the resolved file, the directive's position and the view's first chunk and last node; the node holds the view; nothing else changes |
| Builder.Builder.RecordIncludeError | src/builder.ts:332-342 | a `" "` placeholder at the directive and one error record holding it and the exception; nothing else changes |
| Builder.IncludedViewOutcome | src/builder.ts:272-290 | a miss gives a view exactly when the file is read, the bound holds and the walk succeeds; otherwise the read exception, a stack overflow or the walk exception, in that order |
| Builder.Builder.GetLast | src/builder.ts:355-364 | the countdown loop finds `LastDescendant` |
| Builder.Builder.Build | src/builder.ts:374-381 | fails exactly when the walk fails, with the walk exception and no change; without include directives, the code of the pure compilation, and nothing changes |
| Builder.Builder.GetIncludeTraces | src/builder.ts:97-127 | the traces are exactly `Traces` over the builder's include records |
| Builder.IncludeTraces | src/builder.ts:98-126 | one level of the search (filter, then follow the match) gives exactly `Traces` |
| Builder.FollowInclude | src/builder.ts:122-126 | no match gives the traces back; a match pushes its frame and recurses from its start position; a throw gives None |
| Builder.MatchingIds | src/builder.ts:99-120 | the filter loop returns exactly the matching indices of `MatchIds` |
| Builder.Targeting | src/builder.ts:98 | the records whose included file is the target, and none only when no record includes it |
| Builder.Frame | src/builder.ts:123 | the trace frame `source:line:column` of an include record; `FrameFields` and `FrameReadsBack` state that its fields read back |
| Builder.FrameFields | src/builder.ts:123 | the last two colon-separated fields of a frame are the directive's line and column |
| Builder.FrameReadsBack | src/builder.ts:123 | those two fields read back as the record's line and column numbers |
| Builder.EntryMatch | src/builder.ts:101-118 | the filter callback on one record, with `None` where it throws (a positions walk throws, or a position it reads is undefined); `EntryMatchBounds` and `AcceptsBounds` state when it accepts |
| Builder.AcceptsBounds | src/builder.ts:105-115 | a record matches exactly when the line is within its start and stop lines and the column is at most the stop's last column; the start column plays no part |
| Builder.EntryMatchBounds | src/builder.ts:101-118 | the callback accepts a record exactly when both position lists reach the filtered index and the bounds hold there |
| Builder.MatchIds | src/builder.ts:99-119 | the pushed indices are increasing, each one matched, and every matching index is among them; None exactly when some callback throws |
| Builder.MatchIdsStuck | src/builder.ts:101-119 | once a callback throws, the whole filter throws |
| Builder.MatchIdsFirst | src/builder.ts:119-120 | the first pushed index matched and no index before it did |
| Builder.NextStep | src/builder.ts:98-126 | a level that goes on follows a record of the target |
| Builder.Traces | src/builder.ts:97-127 | the trace search as a recursive function bounded by `fuel`; `GetIncludeTraces` is proved to return it, and `TracesUnfold`, `ChainAppend`, `ChainBounded`, `TracesNotIncluded`, `TracesNoMatch` and `ChainFirstFrame` state its properties |
| Builder.TracesUnfold | src/builder.ts:97-127 | no match gives the traces back, a match pushes its frame and recurses, a throw gives None |
| Builder.NextStepOfIds | src/builder.ts:119-125 | a level goes on from the first pushed index, at that record's start position |
| Builder.ChainAppend | src/builder.ts:123 | the frames found do not depend on the list given, and are appended to it |
| Builder.ChainBounded | src/builder.ts:122-126 | the list only grows, by at most one frame per level |
| Builder.TracesNotIncluded | src/builder.ts:98-122 | a file no record includes gives the traces back unchanged |
| Builder.TracesNoMatch | src/builder.ts:118-122 | when every callback runs and none matches, the traces come back unchanged |
| Builder.NextStepFirstMatch | src/builder.ts:119-120 | when no callback throws, a level follows the matching record with the least index |
| Builder.ChainFirstFrame | src/builder.ts:123 | a level that matches puts its record's frame first |
| Tokenizer.Kept | src/tokenizer.ts:37 | the filter keeps only the candidates whose match is set |
| Tokenizer.GetState | src/tokenizer.ts:18-38 | total; delimiter exactly when the delimiter pattern matches; then text for an html suffix, block, write, and text when nothing matches, each as an if-and-only-if |
| Tokenizer.LastSegment | src/tokenizer.ts:106 | the last dot-separated segment of a scope holds no dot |
| Tokenizer.InnerScopes | src/tokenizer.ts:106 | at most the two innermost scopes |
| Tokenizer.GetContext | src/tokenizer.ts:40-42 | the innermost context word when it is `exp`, `html`, `js` or `css`, else the one around it; `ContextOfScopes` states it on a token's context text |
| Tokenizer.ContextOfScopes | src/tokenizer.ts:40-42 | `getContext` of a token's context words is the innermost segment when it is `exp`, `html`, `js` or `css`, else the one around it |
| Tokenizer.RunResults | src/tokenizer.ts:104-108 | one result per run |
| Tokenizer.LineTokens | src/tokenizer.ts:95-110 | one result per run of equal scope strings, as a map over `Groups`; `TokenizeLine` is proved to return it, and `LineTokensRuns`, `LineTokensSnoc` and `LineTokensOverwrite` state its properties |
| Tokenizer.TokenizeLine | src/tokenizer.ts:95-110 | the loop returns exactly one result per run of equal scope strings (`LineTokens`) |
| Tokenizer.LineTokensSnoc | src/tokenizer.ts:100-109 | a token with the previous scope string overwrites the last value; any other token opens a new result with its text, context and state |
| Tokenizer.LineTokensStep | src/tokenizer.ts:95-110 | one iteration of the loop, as the source's two branches |
| Tokenizer.LineTokensRuns | src/tokenizer.ts:95-110 | the runs partition the tokens into maximal runs of one scope string, so adjacent results differ in scope string and there are no more results than tokens |
| Tokenizer.LineTokensOverwrite | src/tokenizer.ts:100-101 | two tokens with one scope string keep only the second token's text |
| Tokenizer.NonDelimiters | src/tokenizer.ts:157 | no delimiter is kept, and no token is added |
| Tokenizer.ConcatValuesAppend | src/tokenizer.ts:164 | concatenated values distribute over concatenation |
| Tokenizer.MergedRuns | src/tokenizer.ts:158-170 | one merged token per run |
| Tokenizer.MergeLineSpec | src/tokenizer.ts:150-171 | the first pass on one line, as a map over the runs of the non-delimiter tokens; `MergeLine` is proved to return it, and `MergeLineRuns`, `MergeLineKeepsText`, `MergeLineNoDelimiter` and `MergeLineSnoc` state its properties |
| Tokenizer.MergeLineSnoc | src/tokenizer.ts:154-171 | a delimiter is skipped; the first token is pushed; a token with the last scope and context extends its value; any other is pushed with its context |
| Tokenizer.MergeLineStep | src/tokenizer.ts:154-171 | one iteration of the per-line loop, as the source's branches |
| Tokenizer.MergeLine | src/tokenizer.ts:150-171 | the per-line loop returns exactly `MergeLineSpec` |
| Tokenizer.MergedRunsText | src/tokenizer.ts:164 | merging runs keeps the concatenated text |
| Tokenizer.MergeLineKeepsText | src/tokenizer.ts:154-171 | the concatenated output values of a line equal the concatenated non-delimiter input values |
| Tokenizer.MergeLineRuns | src/tokenizer.ts:162-170 | every output token stands for a run of one scope and context, and neighbours differ in scope or context |
| Tokenizer.MergeLineNoDelimiter | src/tokenizer.ts:157 | no delimiter in a merged line, and at most one token per non-delimiter input |
| Tokenizer.JoinedRuns | src/tokenizer.ts:175-190 | one joined token per cross-line run |
| Tokenizer.MergeAcrossSpec | src/tokenizer.ts:175-190 | the second pass, as a map over the cross-line runs; `MergeAcross` is proved to return it, and `MergeAcrossSnoc`, `TokenizeAdjacent` and `MergeAcrossTwo` state its properties |
| Tokenizer.MergeAcrossSnoc | src/tokenizer.ts:175-190 | the first token is pushed; a token of the last scope is pushed when both are text with different contexts, else appended with a line feed; any other is pushed |
| Tokenizer.MergeAcrossStep | src/tokenizer.ts:175-190 | one iteration of the cross-line loop, as the source's branches |
| Tokenizer.TokenizeSpec | src/tokenizer.ts:142-193 | both passes composed; `Tokenize` is proved to return it, and `TokenizeAdjacent`, `TokenizeNoDelimiter`, `TokenizeLength` and `TokenizeJoinsLines` state its properties |
| Tokenizer.Tokenize | src/tokenizer.ts:142-193 | both passes return exactly `TokenizeSpec` of the per-line tokens |
| Tokenizer.MergeAcross | src/tokenizer.ts:175-190 | the cross-line loop returns exactly `MergeAcrossSpec` |
| Tokenizer.TokenizeAdjacent | src/tokenizer.ts:175-190 | two adjacent results share a scope only when both are text with different contexts; order is kept and the result is no longer than the first pass |
| Tokenizer.FirstPassNoDelimiter | src/tokenizer.ts:150-173 | the first pass keeps no delimiter |
| Tokenizer.TokenizeNoDelimiter | src/tokenizer.ts:157 | no token `tokenize` returns is a delimiter |
| Tokenizer.TokenizeLength | src/tokenizer.ts:150-190 | both passes return at most as many tokens as there are non-delimiter input tokens |
| Tokenizer.OneTokenLine | src/tokenizer.ts:158-160 | a line of one non-delimiter token passes with its context recomputed |
| Tokenizer.FirstPassTwoLines | src/tokenizer.ts:150-173 | tokens of different lines are not merged by the first pass |
| Tokenizer.MergeAcrossTwo | src/tokenizer.ts:180-185 | two neighbouring block tokens merge with a line feed between their values |
| Tokenizer.TokenizeJoinsLines | src/tokenizer.ts:142-193 | two lines of one block token each become one token: first value, line feed, second value |
| Utils.CountConcat | src/utils.ts:3-10 | occurrence counts add over concatenation |
| Utils.CountAbsent | src/utils.ts:3-10 | a character that does not occur is counted zero times |
| Utils.EscapeQuotes | src/utils.ts:3-10 | the output is as long as the input plus its number of quotes; it never starts with a quote, and starts with a line feed exactly when the input does |
| Utils.UnescapeEscapeQuotes | src/utils.ts:3-10 | deleting each backslash before a quote recovers the input |
| Utils.EscapeQuotesGuarded | src/utils.ts:3-10 | every quote of the output has a backslash before it |
| Utils.EscapeQuotesConcat | src/utils.ts:3-10 | quote escaping distributes over concatenation |
| Utils.EscapeQuotesPlain | src/utils.ts:3-10 | text without quotes is unchanged |
| Utils.EscapeUL | src/utils.ts:12-14 | `escapeUL`; `EscapeULSingleLine` and `EscapeULCommutes` state its properties |
| Utils.EscapeULSingleLine | src/utils.ts:12-14 | the output of `escapeUL` holds no line feed |
| Utils.EscapeQuotesKeepsLoneCR | src/utils.ts:3-10 | quote escaping keeps a lone carriage return |
| Utils.SplitLinesEscapeQuotes | src/utils.ts:13 | quote escaping adds and removes no line break: the lines of the output are the escaped lines |
| Utils.JoinEscapeEach | src/utils.ts:13 | joining escaped lines is escaping the joined lines |
| Utils.EscapeULCommutes | src/utils.ts:12-14 | `escapeUL` is `escapeQuotes` of the text with its line breaks removed |
| Utils.JsStep | src/utils.ts:31 | one match consumes one or two characters |
| Utils.EscapeJsString | src/utils.ts:22-32 | `escapeJsString`, one regular-expression match at a time (`JsStep`); `EscapeJsStringSingleLine`, `EscapeJsStringPlain`, `EscapeJsStringKeepsQuotes` and `EscapeJsStringConflates` state its properties |
| Utils.EscapeJsStringSingleLine | src/utils.ts:22-32 | the output of `escapeJsString` holds no line feed and no vertical tab |
| Utils.EscapeJsStringPlain | src/utils.ts:22-32 | text without backslash, line feed or vertical tab passes unchanged, quotes included |
| Utils.JsStepKeepsQuotes | src/utils.ts:24-25 | one replacement keeps the quotes it consumed |
| Utils.EscapeJsStringKeepsQuotes | src/utils.ts:22-32 | double and single quotes are neither added nor removed |
| Utils.EscapeJsStringConflates | src/utils.ts:26-27 | a backslash followed by `n` and a line feed escape to the same text |
| Utils.ConcatMapConcat | src/utils.ts:47 | a per-character replacement distributes over concatenation |
| Utils.EscapeHtml | src/utils.ts:40-48 | `escapeHtml` as a per-character replacement; `EscapeHtmlSafe`, `EscapeHtmlPlain`, `EscapeHtmlIdempotent`, `EscapeHtmlConcat` and `EscapeHtmlKeepsApostrophes` state its properties |
| Utils.EscapeHtmlSafe | src/utils.ts:40-48 | the output of `escapeHtml` holds no `<`, `>` or `"` |
| Utils.EscapeHtmlPlain | src/utils.ts:40-48 | text without `<`, `>` and `"` is unchanged |
| Utils.EscapeHtmlIdempotent | src/utils.ts:40-48 | escaping twice is escaping once |
| Utils.EscapeHtmlConcat | src/utils.ts:40-48 | HTML escaping distributes over concatenation |
| Utils.EscapeHtmlKeepsApostrophes | src/utils.ts:45 | single quotes are neither added nor removed |
| Utils.DigitRun | src/utils.ts:59 | the length of the leading run of digits |
| Utils.AnsiLength | src/utils.ts:59 | a match is ESC, `[`, one or more digits and `m` |
| Utils.StripAnsi | src/utils.ts:59 | deleting colour codes never lengthens the text |
| Utils.StripAnsiKeepsLineFeeds | src/utils.ts:59 | deleting colour codes removes no line feed |
| Utils.StripAnsiPlain | src/utils.ts:59 | text without an escape character is unchanged |
| Utils.StripAnsiSinglePass | src/utils.ts:59 | one pass only: a code brought together by a deletion stays |
| Utils.ParseError | src/utils.ts:56-60 | `parseError`; `ParseErrorTwoLines`, `ParseErrorFallback` and `ParseErrorKeepsTwoStackLines` state its properties |
| Utils.ParseErrorTwoLines | src/utils.ts:56-60 | the rendered error spans at most two lines |
| Utils.ParseErrorFallback | src/utils.ts:57 | without a stack, a one-line name and message are rendered as `name :\tmessage` |
| Utils.ParseErrorKeepsTwoStackLines | src/utils.ts:56-60 | with a stack, its first two lines are kept, joined by a line feed, and the rest is dropped |
| Strings.Split | src/builder.ts:185 | `split` on one character returns at least one piece and no piece holds the separator |
| Strings.SplitLines | src/utils.ts:13 | splitting at `\r\n` or `\n` returns at least one line and no line holds a line feed |
| Strings.SplitLinesNoCR | src/builder.ts:313 | text without a lone carriage return splits into lines without any carriage return |
| Strings.JoinLinesKeepsLoneCR | src/builder.ts:313 | rejoining the lines of text with a lone carriage return keeps a carriage return |
| Strings.HasLoneCRAppend | src/builder.ts:313 | a lone carriage return stays lone after anything is put in front |
| Strings.JoinConsHead | src/builder.ts:313 | joining lines whose first starts with a character puts that character in front of the join |
| Strings.JoinSplit | src/builder.ts:185 | joining the pieces with the separator gives the text back |
| Strings.SplitJoin | src/tokenizer.ts:106 | splitting joined separator-free pieces gives the pieces back |
| Strings.Substring | src/tokenizer.ts:97 | `substring` returns no more than the line |
| Strings.IntToString | src/builder.ts:123 | the decimal text of a number: digits and a minus sign only |
| Strings.NatToStringReads | src/builder.ts:123 | the digits of a natural number read back as that number |
| Strings.IntToStringReads | src/builder.ts:123 | the text of any integer is a decimal integer that reads back as that integer |
| Strings.IntToStringInjective | src/builder.ts:123 | different numbers render to different texts |
| Runs.Groups | src/tokenizer.ts:95-110 | the runs are non-empty, no more than the elements, and the last run ends with the last element |
| Runs.GroupsSnoc | src/tokenizer.ts:100-108 | an element with the last run's key extends that run, any other opens a new run |
| Runs.FlattenGroups | src/tokenizer.ts:95-110 | the runs, concatenated, are the input |
| Runs.GroupsIsRunPartition | src/tokenizer.ts:95-110 | the runs partition the input into maximal runs of one key |
| Runs.GroupsUnique | src/tokenizer.ts:95-110 | the maximal-run partition of a sequence is unique |

## Left out

- The `source-map` library is not part of this model. `SourceNode` is a datatype of
  chunks with an optional position, and `Code` models the generated text only;
  `toStringWithSourceMap` and the map it builds are not modelled.
- `eval`, `fs.readFileSync`, `path.join`, `path.resolve`/`dirname` and the tokenizer are
  functions of a `Host` value. The source-map consumer is a `Consumer` function parameter.
- The TextMate grammar, the oniguruma/registry setup and the `ruleStack` threading of
  `tokenizeLines` are left out. The per-line raw tokens are the input of the tokenizer.
  The regular expressions of `getState` are abstract match flags from a `classify`
  parameter.
- `wait` is left out, with its call of `getGrammar`, which src/tokenizer.ts does not define.
- `parse` hands the Promise of the asynchronous `tokenize` to `walk`. Its tokens also have
  no positions, and their scopes are names that `walk` does not look for. Each stage is
  therefore modelled on its own input type and the two are not composed.
- src/context.ts, src/Runner.ts, src/index.ts, index.js, `getRequirer`, `Grammars` and the
  tests are not part of this model: they are glue to Node's `vm`, Express and the file system.
- An error's stack is modelled as absent for the errors the model raises itself.
- Builder.Builder.Include: the depth of nested includes is bounded by a `fuel` argument.
  Exhausted fuel on a cache miss fails with a `RangeError`, standing in for the engine's
  stack overflow on an include cycle.
- Builder.Builder.GetIncludeTraces: the source has no cycle guard; the depth of the search
  is bounded by `fuel` and an exhausted bound gives `None`. `None` also stands for the
  exceptions the source throws (a missing position, `walkPosition` reaching a text chunk).
- Builder.Builder.CompileInclude: "exactly one `includeMap` entry" is stated for a cache
  hit only. On a miss, parsing the included view records its own nested includes before
  this one, so the new entry is stated as the last one appended, and the error records
  of those nested includes are not stated.
  Its `try` and `catch` blocks are the helper methods `IncludeFile`, `RecordInclude` and
  `RecordIncludeError`, so that each outcome is proved on its own.
- Builder.Builder.Compile: for an include child of a block, the contract states only that
  the child's node is at its position and holds the included view or a `" "` placeholder.
  Which one it is depends on the records as they stand when that child is compiled, which
  a postcondition over the whole block does not name; `CompileChild` states it per child.
- Builder.Builder.Parse: the generated code is stated exactly only for views without
  include directives; with them, the shape and positions of the result are stated.
- Builder.Builder.Build: returns the generated code only, not the code-with-source-map object.
- Walk.Walk, Tokenizer.Tokenize and Builder.Builder.GetIncludeTraces: some loop bodies of
  the source are helper methods here (`ReadBlock`, `ReadParams`, `ReadInline`,
  `MergeAcross`, `IncludeTraces`, `FollowInclude`, `MatchingIds`), so that each loop is
  proved on its own.
- Tokenizer.TokenizeLine: the source writes into a result array with a length counter;
  the model appends to a sequence and updates its last element.
